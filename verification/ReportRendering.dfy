/** Rendering section bodies to HTML: blocks, pipe tables, escaping, footnote markers. */
module ReportRendering {
  import opened Text
  import opened Splitting
  import opened Footnotes
  import opened ReportMarkers

  // ---------------------------------------------------------------- escaping

  // `html.escape` with quotes.
  function EscapeChar(c: char): string {
    if c == '&' then "&amp;"
    else if c == '<' then "&lt;"
    else if c == '>' then "&gt;"
    else if c == '"' then "&quot;"
    else if c == '\'' then "&#x27;"
    else [c]
  }

  // `replace("\n", "<br/>")`
  function BreakChar(c: char): string {
    if c == '\n' then "<br/>" else [c]
  }

  function Substitute(f: char -> string, s: string): string {
    if s == "" then "" else f(s[0]) + Substitute(f, s[1..])
  }

  function Escape(s: string): string {
    Substitute(EscapeChar, s)
  }

  function LineBreaks(s: string): string {
    Substitute(BreakChar, s)
  }

  // ---------------------------------------------------------------- lines and cells

  // The line boundaries of `str.splitlines()`; a "\r\n" counts as two, the empty line between is dropped later.
  predicate IsLineBreak(c: char) {
    var n := c as int;
    10 <= n <= 13 || 28 <= n <= 30 || n == 0x85 || n == 0x2028 || n == 0x2029
  }

  /** The non-blank lines of a block. */
  function Lines(s: string, i: nat): (lines: seq<string>)
    requires i <= |s|
    decreases |s|, |s| - i
  {
    if i == |s| then Visible(s)
    else if IsLineBreak(s[i]) then Visible(s[..i]) + Lines(s[i + 1..], 0)
    else Lines(s, i + 1)
  }

  function Visible(line: string): seq<string> {
    if AllSpace(line) then [] else [line]
  }

  // `^\s*\|.*\|\s*$`
  predicate IsTableLine(line: string) {
    var t := Strip(line);
    |t| >= 2 && t[0] == '|' && t[|t| - 1] == '|'
  }

  function SplitPipes(s: string, i: nat): seq<string>
    requires i <= |s|
    decreases |s|, |s| - i
  {
    if i == |s| then [s]
    else if s[i] == '|' then [s[..i]] + SplitPipes(s[i + 1..], 0)
    else SplitPipes(s, i + 1)
  }

  // `strip("|")`
  function StripPipes(s: string): string
    decreases |s|
  {
    if s != "" && s[0] == '|' then StripPipes(s[1..])
    else if s != "" && s[|s| - 1] == '|' then StripPipes(s[..|s| - 1])
    else s
  }

  // `:?-{2,}:?`
  predicate IsDashes(s: string) {
    var a := if s != "" && s[0] == ':' then 1 else 0;
    var b := if |s| > a && s[|s| - 1] == ':' then |s| - 1 else |s|;
    b - a >= 2 && forall i :: a <= i < b ==> s[i] == '-'
  }

  // `^\|?\s*:?-{2,}:?\s*(\|\s*:?-{2,}:?\s*)*\|?$` on a stripped line: one pipe may be missing at either end.
  predicate IsSeparatorRow(line: string) {
    var cells := SplitPipes(WithoutEndPipes(line), 0);
    forall i :: 0 <= i < |cells| ==> IsDashes(Strip(cells[i]))
  }

  function WithoutEndPipes(line: string): string {
    var s := if line != "" && line[0] == '|' then line[1..] else line;
    if s != "" && s[|s| - 1] == '|' then s[..|s| - 1] else s
  }

  function StripAll(cells: seq<string>): seq<string> {
    seq(|cells|, i requires 0 <= i < |cells| => Strip(cells[i]))
  }

  function Cells(line: string): seq<string> {
    StripAll(SplitPipes(StripPipes(Strip(line)), 0))
  }

  // ---------------------------------------------------------------- blocks to HTML

  function CellsHtml(open: string, close: string, cells: seq<string>): seq<Node> {
    if cells == [] then []
    else [Raw(open)] + ToMarkers(Escape(cells[0])) + [Raw(close)] + CellsHtml(open, close, cells[1..])
  }

  function RowHtml(open: string, close: string, line: string): seq<Node> {
    [Raw("<tr>")] + CellsHtml(open, close, Cells(line)) + [Raw("</tr>")]
  }

  function RowsHtml(lines: seq<string>): seq<Node> {
    if lines == [] then [] else RowHtml("<td>", "</td>", lines[0]) + RowsHtml(lines[1..])
  }

  function DropSeparators(lines: seq<string>): seq<string> {
    if lines == [] then []
    else (if IsSeparatorRow(Strip(lines[0])) then [] else [lines[0]]) + DropSeparators(lines[1..])
  }

  function TableHtml(lines: seq<string>): seq<Node> {
    var rows := DropSeparators(lines);
    if rows == [] then [] else
    [Raw("<table class=\"data-table\"><thead>")] + RowHtml("<th>", "</th>", rows[0]) + [Raw("</thead><tbody>")]
      + RowsHtml(rows[1..]) + [Raw("</tbody></table>")]
  }

  function BlockHtml(block: string): seq<Node> {
    var lines := Lines(block, 0);
    if lines != [] && forall i :: 0 <= i < |lines| ==> IsTableLine(lines[i]) then TableHtml(lines)
    else [Raw("<p>")] + ToMarkers(LineBreaks(Escape(block))) + [Raw("</p>")]
  }

  /** `re.split` of the stripped text at blank lines, blank pieces included. */
  function Blocks(s: string): seq<string> {
    SpansTile(Paragraph, s, 0, 0);
    TilesWithin(s, 0, 0, 2, Spans(Paragraph, s, 0, 0));
    Pieces(s, Spans(Paragraph, s, 0, 0))
  }

  function BlocksHtml(blocks: seq<string>): seq<Node> {
    if blocks == [] then []
    else BlockHtml(blocks[0]) + (if |blocks| > 1 then [Raw("\n")] else []) + BlocksHtml(blocks[1..])
  }

  method RenderBodyHtml(content: string) returns (html: seq<Node>)
    ensures html == BlocksHtml(Blocks(Strip(content)))
  {
    hide BlockHtml, Blocks, Strip;
    var blocks := Blocks(Strip(content));
    html := [];
    for i := 0 to |blocks|
      invariant html + BlocksHtml(blocks[i..]) == BlocksHtml(blocks)
    {
      assert blocks[i..][1..] == blocks[i + 1..];
      var part := BlockHtml(blocks[i]);
      html := html + part + if i + 1 < |blocks| then [Raw("\n")] else [];
    }
  }

  // ---------------------------------------------------------------- marks survive each step

  lemma ScanPlain(a: string, b: string)
    requires NoAt(a)
    ensures Scan(a + b) == Scan(b)
    decreases |a|
  {
    hide PlaceholderAt;
    if a == "" {
      assert a + b == b;
    } else {
      assert PlaceholderAt(a + b).None?;
      assert (a + b)[1..] == a[1..] + b;
      ScanPlain(a[1..], b);
    }
  }

  lemma SpaceIsOutside(c: char)
    requires IsSpace(c)
    ensures !InPlaceholder(c) && c != '@'
  {
  }

  lemma ScanGap(a: string, gap: string, b: string)
    requires AllSpace(gap) && (gap != "" || a == "" || b == "")
    ensures Scan(a + gap + b) == Scan(a) + Scan(b)
  {
    hide IsSpace, InPlaceholder, Scan;
    if gap == "" {
      assert a + gap + b == a + b && (a == "" ==> a + b == b) && (b == "" ==> a + b == a);
      assert Scan("") == [] by { ScanNoAt(""); }
    } else {
      SpaceIsOutside(gap[0]);
      assert a + gap + b == a + [gap[0]] + (gap[1..] + b);
      ScanAround(a, gap[0], gap[1..] + b);
      forall i | 0 <= i < |gap[1..]| ensures gap[1..][i] != '@' {
        SpaceIsOutside(gap[1 + i]);
      }
      ScanPlain(gap[1..], b);
    }
  }

  lemma ScanBlank(s: string)
    requires AllSpace(s)
    ensures Scan(s) == []
  {
    hide Scan;
    ScanGap("", s, "");
    assert "" + s + "" == s;
    assert Scan("") == [] by { ScanNoAt(""); }
  }

  lemma ScanNothing()
    ensures Scan("") == []
  {
  }

  lemma ScanLeading(s: string, i: nat)
    requires i <= |s| && AllSpace(s[..i])
    ensures Scan(s[i..]) == Scan(s)
  {
    hide Scan, AllSpace;
    assert s == "" + s[..i] + s[i..];
    ScanGap("", s[..i], s[i..]);
    ScanNothing();
  }

  lemma ScanTrailing(r: string, s: string)
    requires r <= s && AllSpace(s[|r|..])
    ensures Scan(r) == Scan(s)
  {
    hide Scan, AllSpace;
    assert s == r + s[|r|..] + "";
    ScanGap(r, s[|r|..], "");
    ScanNothing();
  }

  lemma ScanStrip(s: string)
    ensures Scan(Strip(s)) == Scan(s)
  {
    hide Scan, SkipSpace, TrimEnd, IsSpace;
    ScanLeading(s, SkipSpace(s, 0));
    ScanTrailing(Strip(s), s[SkipSpace(s, 0)..]);
  }

  // ---- escaping and line breaks

  /** The replacement only touches characters outside placeholders, and puts no at-sign in. */
  ghost predicate Harmless(f: char -> string) {
    forall c :: f(c) == [c] || Outside(c, f(c))
  }

  predicate Outside(c: char, r: string) {
    !InPlaceholder(c) && r != "" && !InPlaceholder(r[0]) && NoAt(r[1..])
  }

  function FirstChanged(f: char -> string, s: string, i: nat): (r: nat)
    requires i <= |s|
    ensures i <= r <= |s|
    ensures r < |s| ==> f(s[r]) != [s[r]]
    ensures forall k :: i <= k < r ==> f(s[k]) == [s[k]]
    decreases |s| - i
  {
    if i == |s| || f(s[i]) != [s[i]] then i else FirstChanged(f, s, i + 1)
  }

  lemma {:induction false} UnchangedPrefix(f: char -> string, s: string, n: nat)
    requires n <= |s| && forall k :: 0 <= k < n ==> f(s[k]) == [s[k]]
    ensures Substitute(f, s) == s[..n] + Substitute(f, s[n..])
    decreases n
  {
    if n == 0 {
      assert s[0..] == s;
    } else {
      UnchangedPrefix(f, s[1..], n - 1);
      assert s[1..][n - 1..] == s[n..] && s[..n] == [s[0]] + s[1..][..n - 1];
    }
  }

  lemma ScanReplaced(a: string, r: string, b: string)
    requires r != "" && !InPlaceholder(r[0]) && NoAt(r[1..])
    ensures Scan(a + r + b) == Scan(a) + Scan(b)
  {
    hide Scan, InPlaceholder, NoAt;
    assert a + r + b == a + [r[0]] + (r[1..] + b);
    ScanAround(a, r[0], r[1..] + b);
    ScanPlain(r[1..], b);
  }

  lemma {:induction false} ScanSubstitute(f: char -> string, s: string)
    requires Harmless(f)
    ensures Scan(Substitute(f, s)) == Scan(s)
    decreases |s|
  {
    hide Scan, Substitute, InPlaceholder, NoAt;
    var i := FirstChanged(f, s, 0);
    UnchangedPrefix(f, s, i);
    if i == |s| {
      assert s[..i] == s && s[i..] == "";
      SubstituteNothing(f);
      assert s + "" == s;
    } else {
      var rest := s[i + 1..];
      UnfoldSubstitute(f, s[i..]);
      assert s[i..][1..] == rest;
      assert s[..i] + (f(s[i]) + Substitute(f, rest)) == s[..i] + f(s[i]) + Substitute(f, rest);
      ScanReplaced(s[..i], f(s[i]), Substitute(f, rest));
      ScanSubstitute(f, rest);
      assert s == s[..i] + [s[i]] + rest;
      ScanAround(s[..i], s[i], rest);
    }
  }

  lemma SubstituteNothing(f: char -> string)
    ensures Substitute(f, "") == ""
  {
  }

  lemma UnfoldSubstitute(f: char -> string, s: string)
    requires s != ""
    ensures Substitute(f, s) == f(s[0]) + Substitute(f, s[1..])
  {
  }

  lemma EscapeCharOutside(c: char)
    ensures EscapeChar(c) == [c] || Outside(c, EscapeChar(c))
  {
    assert !InPlaceholder('&') && !InPlaceholder('<') && !InPlaceholder('>')
        && !InPlaceholder('"') && !InPlaceholder('\'');
  }

  lemma EscapingIsHarmless()
    ensures Harmless(EscapeChar) && Harmless(BreakChar)
  {
    assert Outside('\n', "<br/>");
    hide EscapeChar, Outside;
    forall c: char ensures EscapeChar(c) == [c] || Outside(c, EscapeChar(c)) {
      EscapeCharOutside(c);
    }
  }

  // ---- lines, cells and rows

  /** The numbers of several pieces of text, one after the other. */
  function ScanEach(parts: seq<string>): seq<string> {
    if parts == [] then [] else Scan(parts[0]) + ScanEach(parts[1..])
  }

  lemma {:induction false} ScanEachConcat(a: seq<string>, b: seq<string>)
    ensures ScanEach(a + b) == ScanEach(a) + ScanEach(b)
  {
    hide Scan;
    if a == [] {
      assert a + b == b;
    } else {
      assert (a + b)[1..] == a[1..] + b;
      ScanEachConcat(a[1..], b);
    }
  }

  lemma ScanOne(s: string)
    ensures ScanEach([s]) == Scan(s)
  {
    hide Scan;
    assert [s][1..] == [];
  }

  lemma ScanVisible(line: string)
    ensures ScanEach(Visible(line)) == Scan(line)
  {
    hide AllSpace, Scan;
    if AllSpace(line) {
      ScanBlank(line);
    } else {
      ScanOne(line);
    }
  }

  lemma LineBreakIsOutside(c: char)
    requires IsLineBreak(c)
    ensures !InPlaceholder(c)
  {
  }

  lemma {:induction false} ScanLines(s: string, i: nat)
    requires i <= |s|
    ensures ScanEach(Lines(s, i)) == Scan(s)
    decreases |s|, |s| - i
  {
    hide Scan, Visible, IsLineBreak, InPlaceholder;
    if i == |s| {
      ScanVisible(s);
    } else if IsLineBreak(s[i]) {
      LineBreakIsOutside(s[i]);
      ScanLines(s[i + 1..], 0);
      ScanVisible(s[..i]);
      ScanEachConcat(Visible(s[..i]), Lines(s[i + 1..], 0));
      assert s == s[..i] + [s[i]] + s[i + 1..];
      ScanAround(s[..i], s[i], s[i + 1..]);
    } else {
      ScanLines(s, i + 1);
    }
  }

  lemma {:induction false} ScanPipes(s: string, i: nat)
    requires i <= |s|
    ensures ScanEach(SplitPipes(s, i)) == Scan(s)
    decreases |s|, |s| - i
  {
    assert !InPlaceholder('|');
    hide Scan, InPlaceholder;
    if i == |s| {
      ScanOne(s);
    } else if s[i] == '|' {
      ScanPipes(s[i + 1..], 0);
      ScanOne(s[..i]);
      ScanEachConcat([s[..i]], SplitPipes(s[i + 1..], 0));
      assert s == s[..i] + [s[i]] + s[i + 1..];
      ScanAround(s[..i], s[i], s[i + 1..]);
    } else {
      ScanPipes(s, i + 1);
    }
  }

  lemma ScanEnds(c: char, s: string)
    requires !InPlaceholder(c)
    ensures Scan([c] + s) == Scan(s) && Scan(s + [c]) == Scan(s)
  {
    hide Scan, InPlaceholder;
    ScanNothing();
    ScanAround("", c, s);
    ScanAround(s, c, "");
    assert "" + [c] + s == [c] + s && s + [c] + "" == s + [c];
  }

  lemma PipeIsOutside()
    ensures !InPlaceholder('|')
  {
  }

  lemma ScanFirstPipe(s: string)
    requires s != "" && s[0] == '|'
    ensures Scan(s[1..]) == Scan(s)
  {
    PipeIsOutside();
    hide *;
    ScanEnds('|', s[1..]);
    assert s == ['|'] + s[1..];
  }

  lemma ScanLastPipe(s: string)
    requires s != "" && s[|s| - 1] == '|'
    ensures Scan(s[..|s| - 1]) == Scan(s)
  {
    PipeIsOutside();
    hide *;
    ScanEnds('|', s[..|s| - 1]);
    assert s == s[..|s| - 1] + ['|'];
  }

  lemma {:induction false} ScanStripPipes(s: string)
    ensures Scan(StripPipes(s)) == Scan(s)
    decreases |s|
  {
    hide Scan;
    if s != "" {
      if s[0] == '|' {
        ScanFirstPipe(s);
        ScanStripPipes(s[1..]);
      } else if s[|s| - 1] == '|' {
        ScanLastPipe(s);
        ScanStripPipes(s[..|s| - 1]);
      }
    }
  }

  lemma {:induction false} ScanStripAll(cells: seq<string>)
    ensures ScanEach(StripAll(cells)) == ScanEach(cells)
  {
    hide Scan, Strip;
    if cells != [] {
      assert StripAll(cells)[1..] == StripAll(cells[1..]);
      ScanStrip(cells[0]);
      ScanStripAll(cells[1..]);
    }
  }

  lemma ScanCells(line: string)
    ensures ScanEach(Cells(line)) == Scan(line)
  {
    hide Scan, ScanEach, Strip, StripPipes, SplitPipes, StripAll;
    ScanStrip(line);
    ScanStripPipes(Strip(line));
    ScanPipes(StripPipes(Strip(line)), 0);
    ScanStripAll(SplitPipes(StripPipes(Strip(line)), 0));
  }

  // A separator row consists of pipes, dashes, colons and spaces: dropping it drops no number.
  lemma ScanDashes(s: string)
    requires IsDashes(Strip(s))
    ensures Scan(s) == []
  {
    var t := Strip(s);
    assert NoAt(t);
    hide Scan, Strip;
    ScanNoAt(t);
    ScanStrip(s);
  }

  lemma {:induction false} ScanAllDashes(cells: seq<string>)
    requires forall i :: 0 <= i < |cells| ==> IsDashes(Strip(cells[i]))
    ensures ScanEach(cells) == []
  {
    hide Scan, Strip, IsDashes;
    if cells != [] {
      ScanDashes(cells[0]);
      ScanAllDashes(cells[1..]);
    }
  }

  lemma ScanWithoutEndPipes(line: string)
    ensures Scan(WithoutEndPipes(line)) == Scan(line)
  {
    hide Scan;
    if line != "" && line[0] == '|' {
      ScanFirstPipe(line);
    }
    var s := if line != "" && line[0] == '|' then line[1..] else line;
    if s != "" && s[|s| - 1] == '|' {
      ScanLastPipe(s);
    }
  }

  lemma ScanSeparator(line: string)
    requires IsSeparatorRow(line)
    ensures Scan(line) == []
  {
    hide Scan, SplitPipes, IsDashes, Strip, WithoutEndPipes;
    ScanWithoutEndPipes(line);
    ScanPipes(WithoutEndPipes(line), 0);
    ScanAllDashes(SplitPipes(WithoutEndPipes(line), 0));
  }

  lemma {:induction false} ScanDropSeparators(lines: seq<string>)
    ensures ScanEach(DropSeparators(lines)) == ScanEach(lines)
  {
    hide Scan, Strip, IsSeparatorRow;
    if lines != [] {
      ScanDropSeparators(lines[1..]);
      ScanOne(lines[0]);
      if IsSeparatorRow(Strip(lines[0])) {
        ScanSeparator(Strip(lines[0]));
        ScanStrip(lines[0]);
        assert [] + DropSeparators(lines[1..]) == DropSeparators(lines[1..]);
      } else {
        ScanEachConcat([lines[0]], DropSeparators(lines[1..]));
      }
    }
  }

  // ---- html

  lemma MarksWrapped(open: string, inner: seq<Node>, close: string)
    ensures Marks([Raw(open)] + inner + [Raw(close)]) == Marks(inner)
  {
    hide Marks;
    MarksConcat([Raw(open)] + inner, [Raw(close)]);
    MarksConcat([Raw(open)], inner);
    RawHasNoMarks(open);
    RawHasNoMarks(close);
  }

  lemma RawHasNoMarks(text: string)
    ensures Marks([Raw(text)]) == []
  {
    assert [Raw(text)][1..] == [];
  }

  lemma {:induction false} CellsMarks(open: string, close: string, cells: seq<string>)
    ensures Marks(CellsHtml(open, close, cells)) == ScanEach(cells)
  {
    hide Marks, Scan, ToMarkers, Escape;
    if cells == [] {
      assert Marks([]) == [] by { NoMarks(); }
    } else {
      var cell := ToMarkers(Escape(cells[0]));
      MarksOfScan(Escape(cells[0]));
      EscapeKeepsScan(cells[0]);
      CellsMarks(open, close, cells[1..]);
      MarksWrapped(open, cell, close);
      MarksConcat([Raw(open)] + cell + [Raw(close)], CellsHtml(open, close, cells[1..]));
    }
  }

  lemma NoMarks()
    ensures Marks([]) == []
  {
  }

  lemma EscapeKeepsScan(s: string)
    ensures Scan(Escape(s)) == Scan(s) && Scan(LineBreaks(Escape(s))) == Scan(s)
  {
    hide Scan, Substitute, Harmless;
    EscapingIsHarmless();
    ScanSubstitute(EscapeChar, s);
    ScanSubstitute(BreakChar, Escape(s));
  }

  lemma RowMarks(open: string, close: string, line: string)
    ensures Marks(RowHtml(open, close, line)) == Scan(line)
  {
    hide Marks, Scan, CellsHtml, Cells;
    MarksWrapped("<tr>", CellsHtml(open, close, Cells(line)), "</tr>");
    CellsMarks(open, close, Cells(line));
    ScanCells(line);
  }

  lemma {:induction false} RowsMarks(lines: seq<string>)
    ensures Marks(RowsHtml(lines)) == ScanEach(lines)
  {
    hide Marks, Scan, RowHtml;
    if lines == [] {
      NoMarks();
    } else {
      RowMarks("<td>", "</td>", lines[0]);
      RowsMarks(lines[1..]);
      MarksConcat(RowHtml("<td>", "</td>", lines[0]), RowsHtml(lines[1..]));
    }
  }

  lemma TableMarks(lines: seq<string>)
    ensures Marks(TableHtml(lines)) == ScanEach(lines)
  {
    hide Marks, Scan, RowHtml, RowsHtml, DropSeparators;
    var rows := DropSeparators(lines);
    ScanDropSeparators(lines);
    if rows == [] {
      NoMarks();
    } else {
      var head, body := RowHtml("<th>", "</th>", rows[0]), RowsHtml(rows[1..]);
      RowMarks("<th>", "</th>", rows[0]);
      RowsMarks(rows[1..]);
      MarksWrapped("<table class=\"data-table\"><thead>", head, "</thead><tbody>");
      var start := [Raw("<table class=\"data-table\"><thead>")] + head + [Raw("</thead><tbody>")];
      MarksConcat(start + body, [Raw("</tbody></table>")]);
      MarksConcat(start, body);
      RawHasNoMarks("</tbody></table>");
    }
  }

  lemma BlockMarks(block: string)
    ensures Marks(BlockHtml(block)) == Scan(block)
  {
    hide Marks, Scan, TableHtml, Lines, ToMarkers, Escape, LineBreaks, IsTableLine, ScanEach;
    ScanLines(block, 0);
    TableMarks(Lines(block, 0));
    var text := LineBreaks(Escape(block));
    MarksWrapped("<p>", ToMarkers(text), "</p>");
    MarksOfScan(text);
    EscapeKeepsScan(block);
  }

  lemma {:induction false} BlocksMarks(blocks: seq<string>)
    ensures Marks(BlocksHtml(blocks)) == ScanEach(blocks)
  {
    hide Marks, Scan, BlockHtml;
    if blocks == [] {
      NoMarks();
    } else {
      var first, join := BlockHtml(blocks[0]), if |blocks| > 1 then [Raw("\n")] else [];
      BlockMarks(blocks[0]);
      BlocksMarks(blocks[1..]);
      MarksConcat(first + join, BlocksHtml(blocks[1..]));
      MarksConcat(first, join);
      RawHasNoMarks("\n");
      NoMarks();
    }
  }

  lemma {:induction false} TilesScan(t: string, cur: nat, first: nat, gap: nat, spans: seq<Span>)
    requires Tiles(t, cur, first, gap, spans) && gap > 0
    ensures AllWithin(t, spans) && cur <= |t|
    ensures Scan(t[cur..]) == ScanEach(Pieces(t, spans))
    decreases |spans|
  {
    hide IsSpace, Scan, AllSpace;
    TilesWithin(t, cur, first, gap, spans);
    if spans == [] {
      SliceIsSpace(t, cur, |t|);
      assert t[cur..|t|] == t[cur..];
      ScanBlank(t[cur..]);
    } else {
      var s := spans[0];
      SliceIsSpace(t, cur, s.lo);
      assert t[cur..][s.lo - cur..] == t[s.lo..] && t[cur..][..s.lo - cur] == t[cur..s.lo];
      ScanLeading(t[cur..], s.lo - cur);
      TilesScan(t, s.hi, gap, gap, spans[1..]);
      assert Pieces(t, spans)[1..] == Pieces(t, spans[1..]);
      ScanPiece(t, s, gap, spans[1..]);
    }
  }

  lemma ScanPiece(t: string, s: Span, gap: nat, rest: seq<Span>)
    requires Within(t, s) && Tiles(t, s.hi, gap, gap, rest) && gap > 0
    ensures Scan(t[s.lo..]) == Scan(t[s.lo..s.hi]) + Scan(t[s.hi..])
  {
    NextIsSpace(t, s.hi, gap, rest);
    hide IsSpace, Scan, Tiles, InPlaceholder;
    var a, b := t[s.lo..s.hi], t[s.hi..];
    if b == "" {
      assert t[s.lo..] == a;
      ScanNothing();
    } else {
      SpaceIsOutside(b[0]);
      assert t[s.lo..] == a + [b[0]] + b[1..] && b == "" + [b[0]] + b[1..];
      ScanAround(a, b[0], b[1..]);
      ScanAround("", b[0], b[1..]);
      ScanNothing();
    }
  }

  lemma BlocksScan(s: string)
    ensures ScanEach(Blocks(s)) == Scan(s)
  {
    hide Scan, ScanEach, Tiles, Spans;
    SpansTile(Paragraph, s, 0, 0);
    TilesScan(s, 0, 0, 2, Spans(Paragraph, s, 0, 0));
    assert s[0..] == s;
  }

  /** Rendering loses, duplicates and reorders no marker: for every text, table rows, cells and escaping included. */
  lemma RenderingKeepsMarks(content: string)
    ensures Marks(BlocksHtml(Blocks(Strip(content)))) == Marks(ToMarkers(content))
  {
    hide Marks, Scan, ScanEach, Blocks, BlocksHtml, Strip, ToMarkers;
    BlocksMarks(Blocks(Strip(content)));
    BlocksScan(Strip(content));
    ScanStrip(content);
    MarksOfScan(content);
  }

  /**
   * From content to HTML: the footnote numbers in the rendered section are those of the content's citations,
   * one each and in order, whenever no literal placeholder stands in the content.
   */
  lemma SectionMarks(content: string, m: Numbers)
    requires Numbered(content, m) && Clean(content)
    ensures forall c :: c in Keys(Lex(content)) ==> c in m
    ensures Marks(BlocksHtml(Blocks(Strip(Rendered(content, m))))) == NumbersOf(Keys(Lex(content)), m)
  {
    hide Marks, Blocks, BlocksHtml, Strip, ToMarkers, Intended, Numbered, Rendered, Clean, Lex, Keys;
    RenderingKeepsMarks(Rendered(content, m));
    EveryCitationOneMarker(content, m);
    IntendedMarks(content, m);
  }
}
