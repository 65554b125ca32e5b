/** Which blocks of a body become tables, and what a reader of the HTML gets back: said of the characters. */
module BlockLaws {
  import opened Text
  import opened Splitting
  import opened SplitLaws
  import opened ReportMarkers
  import opened ReportRendering
  import opened ReportText

  // ---------------------------------------------------------------- lines

  // Whitespace within a line: tabs, blanks and the like.
  predicate IsBlank(c: char) {
    var n := c as int;
    || n == 9 || n == 31 || n == 32 || n == 0xA0 || n == 0x1680 || 0x2000 <= n <= 0x200A
    || n == 0x202F || n == 0x205F || n == 0x3000
  }

  /** The line breaks are the whitespace that is no blank. */
  lemma LineBreakExact(c: char)
    ensures IsLineBreak(c) <==> IsSpace(c) && !IsBlank(c)
    ensures IsBlank(c) ==> IsSpace(c)
  {
  }

  /** A line of a block: no line break inside, and one or nothing at either end. */
  predicate IsLine(s: string, a: int, b: int) {
    && 0 <= a <= b <= |s|
    && (forall k :: a <= k < b ==> !IsLineBreak(s[k]))
    && (a == 0 || IsLineBreak(s[a - 1]))
    && (b == |s| || IsLineBreak(s[b]))
  }

  /** It reads `w`, and something in it is visible. */
  predicate IsVisibleLine(s: string, a: int, b: int, w: string) {
    IsLine(s, a, b) && s[a..b] == w && !AllSpace(w)
  }

  ghost predicate HasLine(s: string, w: string) {
    exists a, b :: IsVisibleLine(s, a, b, w)
  }

  lemma LineAt(s: string, a: int, b: int, w: string)
    requires IsVisibleLine(s, a, b, w)
    ensures HasLine(s, w) && 0 <= a <= b <= |s|
  {
  }

  lemma OnlyLine(s: string, w: string)
    requires forall k :: 0 <= k < |s| ==> !IsLineBreak(s[k])
    ensures HasLine(s, w) <==> w == s && !AllSpace(s)
  {
    hide IsLineBreak, AllSpace;
    assert s[0..|s|] == s;
    assert !AllSpace(s) ==> IsVisibleLine(s, 0, |s|, s);
    if a, b :| IsVisibleLine(s, a, b, w) {
      assert a == 0 && b == |s|;
    }
  }

  lemma LineBehind(s: string, n: nat, a: int, b: int, w: string)
    requires 0 < n <= |s| && IsLineBreak(s[n - 1]) && n <= a
    ensures IsVisibleLine(s, a, b, w) <==> IsVisibleLine(s[n..], a - n, b - n, w)
  {
    hide IsLineBreak, AllSpace;
    var t := s[n..];
    assert forall k :: 0 <= k < |t| ==> t[k] == s[n + k];
    if a <= b <= |s| {
      assert s[a..b] == t[a - n..b - n];
    }
    if IsVisibleLine(t, a - n, b - n, w) {
      forall k | a <= k < b ensures !IsLineBreak(s[k]) {
        assert t[k - n] == s[k];
      }
    }
  }

  lemma FirstLine(s: string, i: nat, a: int, b: int, w: string)
    requires i < |s| && IsLineBreak(s[i]) && (forall k :: 0 <= k < i ==> !IsLineBreak(s[k]))
    requires IsVisibleLine(s, a, b, w)
    ensures i + 1 <= a || (w == s[..i] && !AllSpace(s[..i]))
  {
    hide IsLineBreak, AllSpace;
    assert s[0..i] == s[..i];
  }

  lemma LinesSplit(s: string, i: nat, w: string)
    requires i < |s| && IsLineBreak(s[i]) && (forall k :: 0 <= k < i ==> !IsLineBreak(s[k]))
    ensures HasLine(s, w) <==> (w == s[..i] && !AllSpace(s[..i])) || HasLine(s[i + 1..], w)
  {
    hide IsLineBreak, AllSpace, IsVisibleLine;
    if a, b :| IsVisibleLine(s, a, b, w) {
      FirstLine(s, i, a, b, w);
      if i + 1 <= a {
        LineBehind(s, i + 1, a, b, w);
      }
    }
    var rest := s[i + 1..];
    if a, b :| IsVisibleLine(rest, a, b, w) {
      LineAt(rest, a, b, w);
      LineBehind(s, i + 1, a + i + 1, b + i + 1, w);
    }
    if !AllSpace(s[..i]) {
      StartLine(s, i);
    }
  }

  lemma StartLine(s: string, i: nat)
    requires i < |s| && IsLineBreak(s[i]) && (forall k :: 0 <= k < i ==> !IsLineBreak(s[k])) && !AllSpace(s[..i])
    ensures IsVisibleLine(s, 0, i, s[..i])
  {
    hide IsLineBreak, AllSpace;
    assert s[0..i] == s[..i];
  }

  /** The lines of a block are its visible lines. */
  lemma {:induction false} LinesExact(s: string, i: nat, w: string)
    requires i <= |s| && forall k :: 0 <= k < i ==> !IsLineBreak(s[k])
    ensures w in Lines(s, i) <==> HasLine(s, w)
    decreases |s|, |s| - i
  {
    hide IsLineBreak, AllSpace, HasLine;
    if i == |s| {
      OnlyLine(s, w);
    } else if IsLineBreak(s[i]) {
      LinesExact(s[i + 1..], 0, w);
      LinesSplit(s, i, w);
    } else {
      LinesExact(s, i + 1, w);
    }
  }

  // ---------------------------------------------------------------- table lines

  /** Between two different pipes, with nothing visible outside of them. */
  ghost predicate Piped(w: string) {
    exists i, j :: PipesAt(w, i, j)
  }

  predicate PipesAt(w: string, i: int, j: int) {
    && 0 <= i < j < |w| && w[i] == '|' && w[j] == '|'
    && AllSpace(w[..i]) && AllSpace(w[j + 1..])
  }

  lemma PipedIsTableLine(w: string, i: int, j: int)
    requires PipesAt(w, i, j)
    ensures IsTableLine(w)
  {
    hide AllSpace, Strip;
    PipeIsVisible();
    assert w == w[..i] + w[i..j + 1] + w[j + 1..];
    StripPadded(w[..i], w[i..j + 1], w[j + 1..]);
  }

  lemma PipeIsVisible()
    ensures !IsSpace('|')
  {
  }

  lemma TableLineIsPiped(w: string)
    requires IsTableLine(w)
    ensures Piped(w)
  {
    hide IsSpace;
    var i := SkipSpace(w, 0);
    var t := Strip(w);
    var j := i + |t| - 1;
    assert w[i..][..|t|] == t;
    assert w[i] == t[0] && w[j] == t[|t| - 1];
    assert w[i..][|t|..] == w[j + 1..];
    assert forall k :: 0 <= k < i ==> w[..i][k] == w[k];
    assert PipesAt(w, i, j);
  }

  /** A table line is one whose first and last visible characters are two pipes. */
  lemma TableLineExact(w: string)
    ensures IsTableLine(w) <==> Piped(w)
  {
    hide *;
    if IsTableLine(w) {
      TableLineIsPiped(w);
    }
    if Piped(w) {
      PipedMeans(w);
    }
  }

  lemma PipedMeans(w: string)
    requires Piped(w)
    ensures IsTableLine(w)
  {
    hide PipesAt, IsTableLine;
    var i, j :| PipesAt(w, i, j);
    PipedIsTableLine(w, i, j);
  }

  // ---------------------------------------------------------------- table or paragraph

  /** A block with a visible line, all of whose visible lines stand between two pipes. */
  ghost predicate IsTable(block: string) {
    && (exists w :: HasLine(block, w))
    && forall w :: HasLine(block, w) ==> Piped(w)
  }

  lemma TableLines(block: string)
    ensures var lines := Lines(block, 0);
      IsTable(block) <==> lines != [] && forall i :: 0 <= i < |lines| ==> IsTableLine(lines[i])
  {
    hide HasLine, Piped, IsTableLine, Lines;
    var lines := Lines(block, 0);
    forall w ensures w in lines <==> HasLine(block, w) {
      LinesExact(block, 0, w);
    }
    forall w ensures IsTableLine(w) <==> Piped(w) {
      TableLineExact(w);
    }
    if lines != [] {
      assert lines[0] in lines;
    }
  }

  /** One paragraph that reads back as the text, with no tag in it but line breaks. */
  ghost predicate IsParagraphOf(block: string, html: seq<Node>) {
    exists content :: ParagraphWith(block, html, content)
  }

  ghost predicate ParagraphWith(block: string, html: seq<Node>, content: seq<Node>) {
    && html == [Raw("<p>")] + content + [Raw("</p>")]
    && Unescape(Unbreak(Flat(content))) == block
    && NoTableTags(content)
  }

  /** The rows of the lines that are no separator rows, each with its cells. */
  function TableRows(block: string): seq<seq<string>> {
    CellRows(DropSeparators(Lines(block, 0)))
  }

  lemma {:induction false} CharNodes(s: string)
    ensures forall n :: n in ToMarkers(s) && n.Raw? ==> |n.text| == 1 && n.text[0] in s
    decreases |s|
  {
    hide PlaceholderAt;
    if s != "" {
      match PlaceholderAt(s)
      case Some(d) =>
        CharNodes(s[|d| + 8..]);
      case None =>
        CharNodes(s[1..]);
    }
  }

  lemma CharNodesAreNoTags(s: string)
    ensures NoTableTags(ToMarkers(s))
  {
    hide ToMarkers;
    CharNodes(s);
    forall i | 0 <= i < |ToMarkers(s)| ensures TagOf(ToMarkers(s)[i]).OtherNode? {
      assert ToMarkers(s)[i] in ToMarkers(s);
    }
  }

  lemma ParagraphShows(block: string)
    ensures var html := [Raw("<p>")] + ToMarkers(LineBreaks(Escape(block))) + [Raw("</p>")];
      IsParagraphOf(block, html)
  {
    hide *;
    var content := ToMarkers(LineBreaks(Escape(block)));
    ParagraphReadsBack(block);
    CharNodesAreNoTags(LineBreaks(Escape(block)));
    ParagraphIs(block, content);
  }

  lemma ParagraphIs(block: string, content: seq<Node>)
    requires Unescape(Unbreak(Flat(content))) == block && NoTableTags(content)
    ensures IsParagraphOf(block, [Raw("<p>")] + content + [Raw("</p>")])
  {
    hide Unescape, Unbreak, Flat, NoTableTags;
    assert ParagraphWith(block, [Raw("<p>")] + content + [Raw("</p>")], content);
  }

  /** What a block has to show: a table its rows, anything else itself in one paragraph. */
  ghost predicate Shows(block: string, html: seq<Node>) {
    if IsTable(block) then ReadTable(html, [], []) == TableRows(block) && Raw("<p>") !in html
    else IsParagraphOf(block, html)
  }

  // ---------------------------------------------------------------- no newline and no paragraph in a table

  predicate Inner(html: seq<Node>) {
    Raw("<p>") !in html && Raw("\n") !in html
  }

  lemma {:induction false} EscapeAddsNoNewline(s: string)
    requires '\n' !in s
    ensures '\n' !in Escape(s)
  {
    if s != "" {
      assert s[0] in s;
      EscapeAddsNoNewline(s[1..]);
    }
  }

  lemma CellIsInner(cell: string)
    requires '\n' !in cell
    ensures Inner(ToMarkers(Escape(cell)))
  {
    hide Escape, ToMarkers;
    EscapeAddsNoNewline(cell);
    CharNodes(Escape(cell));
  }

  predicate NoNewlines(cells: seq<string>) {
    forall i :: 0 <= i < |cells| ==> '\n' !in cells[i]
  }

  lemma {:induction false} CellsAreInner(open: string, close: string, cells: seq<string>)
    requires NoNewlines(cells) && Inner([Raw(open)]) && Inner([Raw(close)])
    ensures Inner(CellsHtml(open, close, cells))
  {
    hide Escape, ToMarkers;
    if cells != [] {
      CellIsInner(cells[0]);
      CellsAreInner(open, close, cells[1..]);
    }
  }

  lemma StripSub(s: string)
    ensures forall c :: c in Strip(s) ==> c in s
  {
    var r := s[SkipSpace(s, 0)..];
    assert forall c :: c in TrimEnd(r) ==> c in r;
  }

  lemma {:induction false} StripPipesSub(s: string)
    ensures forall c :: c in StripPipes(s) ==> c in s
    decreases |s|
  {
    if s != "" && s[0] == '|' {
      StripPipesSub(s[1..]);
    } else if s != "" && s[|s| - 1] == '|' {
      StripPipesSub(s[..|s| - 1]);
    }
  }

  lemma {:induction false} SplitPipesSub(s: string, i: nat)
    requires i <= |s| && '\n' !in s
    ensures NoNewlines(SplitPipes(s, i))
    decreases |s|, |s| - i
  {
    if i < |s| {
      if s[i] == '|' {
        SplitPipesSub(s[i + 1..], 0);
      } else {
        SplitPipesSub(s, i + 1);
      }
    }
  }

  lemma CellsSub(line: string)
    requires '\n' !in line
    ensures NoNewlines(Cells(line))
  {
    hide Strip, StripPipes, SplitPipes;
    StripSub(line);
    StripPipesSub(Strip(line));
    var cells := SplitPipes(StripPipes(Strip(line)), 0);
    SplitPipesSub(StripPipes(Strip(line)), 0);
    forall i | 0 <= i < |cells| ensures '\n' !in Strip(cells[i]) {
      StripSub(cells[i]);
    }
  }

  lemma RowIsInner(open: string, close: string, line: string)
    requires '\n' !in line && Inner([Raw(open)]) && Inner([Raw(close)])
    ensures Inner(RowHtml(open, close, line))
  {
    hide Cells, CellsHtml;
    CellsSub(line);
    CellsAreInner(open, close, Cells(line));
  }

  lemma {:induction false} RowsAreInner(lines: seq<string>)
    requires NoNewlines(lines)
    ensures Inner(RowsHtml(lines))
  {
    hide RowHtml;
    if lines != [] {
      RowIsInner("<td>", "</td>", lines[0]);
      RowsAreInner(lines[1..]);
    }
  }

  lemma {:induction false} DropSeparatorsSub(lines: seq<string>)
    requires NoNewlines(lines)
    ensures NoNewlines(DropSeparators(lines))
  {
    hide IsSeparatorRow, Strip;
    if lines != [] {
      DropSeparatorsSub(lines[1..]);
    }
  }

  lemma TableIsInner(lines: seq<string>)
    requires NoNewlines(lines)
    ensures Inner(TableHtml(lines))
  {
    hide RowHtml, RowsHtml, DropSeparators;
    var rows := DropSeparators(lines);
    DropSeparatorsSub(lines);
    if rows != [] {
      RowIsInner("<th>", "</th>", rows[0]);
      RowsAreInner(rows[1..]);
    }
  }

  lemma LinesHaveNoNewline(block: string)
    ensures NoNewlines(Lines(block, 0))
  {
    hide Lines, HasLine;
    var lines := Lines(block, 0);
    forall i | 0 <= i < |lines| ensures '\n' !in lines[i] {
      LinesExact(block, 0, lines[i]);
      LineHasNoNewline(block, lines[i]);
    }
  }

  lemma LineHasNoNewline(s: string, w: string)
    requires HasLine(s, w)
    ensures '\n' !in w
  {
    hide AllSpace;
    var a, b :| IsVisibleLine(s, a, b, w);
    assert IsLineBreak('\n');
    assert forall k :: 0 <= k < |w| ==> w[k] == s[a + k];
  }

  lemma {:induction false} BreaksLeaveNoNewline(s: string)
    ensures '\n' !in LineBreaks(s)
  {
    if s != "" {
      BreaksLeaveNoNewline(s[1..]);
    }
  }

  lemma NoNewlineNode(block: string)
    ensures Raw("\n") !in BlockHtml(block)
  {
    hide Lines, TableHtml, IsTableLine, ToMarkers, LineBreaks, Escape;
    LinesHaveNoNewline(block);
    TableIsInner(Lines(block, 0));
    BreaksLeaveNoNewline(Escape(block));
    CharNodes(LineBreaks(Escape(block)));
  }

  // ---------------------------------------------------------------- reading a body back

  /** A block is a table exactly when its characters say so, and in either case it reads back. */
  lemma BlockReadsBack(block: string)
    ensures Shows(block, BlockHtml(block))
  {
    hide IsTable, IsTableLine, Lines, TableHtml, ReadTable, IsParagraphOf, ToMarkers, LineBreaks, Escape;
    TableLines(block);
    TableReadsBack(Lines(block, 0));
    LinesHaveNoNewline(block);
    TableIsInner(Lines(block, 0));
    ParagraphShows(block);
  }

  /** The parts of a body, between its newlines: `i` nodes of the first one have been read. */
  function Parts(html: seq<Node>, i: nat): seq<seq<Node>>
    requires i <= |html|
    decreases |html|, |html| - i
  {
    if i == |html| then [html]
    else if html[i] == Raw("\n") then [html[..i]] + Parts(html[i + 1..], 0)
    else Parts(html, i + 1)
  }

  lemma {:induction false} FirstPart(part: seq<Node>, rest: seq<Node>, i: nat)
    requires i <= |part| && Raw("\n") !in part
    ensures Parts(part + ([Raw("\n")] + rest), i) == [part] + Parts(rest, 0)
    decreases |part| - i
  {
    var html := part + ([Raw("\n")] + rest);
    if i == |part| {
      assert html[..i] == part && html[i + 1..] == rest;
    } else {
      assert html[i] == part[i] && part[i] in part;
      FirstPart(part, rest, i + 1);
    }
  }

  lemma {:induction false} OnlyPart(part: seq<Node>, i: nat)
    requires i <= |part| && Raw("\n") !in part
    ensures Parts(part, i) == [part]
    decreases |part| - i
  {
    if i < |part| {
      assert part[i] in part;
      OnlyPart(part, i + 1);
    }
  }

  ghost predicate AllShow(blocks: seq<string>, parts: seq<seq<Node>>) {
    |parts| == |blocks| && forall i :: 0 <= i < |blocks| ==> Shows(blocks[i], parts[i])
  }

  lemma {:induction false} BlocksReadBack(blocks: seq<string>)
    requires blocks != []
    ensures AllShow(blocks, Parts(BlocksHtml(blocks), 0))
  {
    hide BlockHtml, Shows, Parts;
    var first := BlockHtml(blocks[0]);
    BlockReadsBack(blocks[0]);
    NoNewlineNode(blocks[0]);
    if |blocks| == 1 {
      assert BlocksHtml(blocks) == first;
      OnlyPart(first, 0);
    } else {
      var rest := BlocksHtml(blocks[1..]);
      assert BlocksHtml(blocks) == first + ([Raw("\n")] + rest);
      FirstPart(first, rest, 0);
      BlocksReadBack(blocks[1..]);
    }
  }

  lemma BlocksOfText(s: string)
    ensures Blocks(s) == SplitText(Paragraph, s) && Blocks(s) != []
  {
    hide Spans, Pieces, Tiles, IsSplit;
    SplitExact(Paragraph, s);
    SplitMeans(Paragraph, s, 0, Spans(Paragraph, s, 0, 0));
  }

  /** The rendered body shows the paragraphs of the content, each in its place as a table or as itself. */
  lemma BodyReadsBack(content: string)
    ensures AllShow(SplitText(Paragraph, Strip(content)), Parts(BlocksHtml(Blocks(Strip(content))), 0))
  {
    hide *;
    BlocksOfText(Strip(content));
    BlocksReadBack(Blocks(Strip(content)));
  }

  lemma {:induction false} JoinedEnds(sep: string, ps: seq<string>)
    requires ps != [] && forall i :: 0 <= i < |ps| ==> ps[i] != "" && VisibleEnds(ps[i])
    ensures Join(sep, ps) != "" && VisibleEnds(Join(sep, ps))
  {
    hide IsSpace;
    if |ps| > 1 {
      JoinedEnds(sep, ps[1..]);
    }
  }

  lemma StripVisible(s: string)
    requires VisibleEnds(s)
    ensures Strip(s) == s
  {
    hide Strip, VisibleEnds;
    StripPadded("", s, "");
    assert "" + s + "" == s;
  }

  /** For paragraphs with a blank line between them these are the paragraphs. */
  lemma ParagraphsReadBack(ps: seq<string>)
    requires ps != [] && forall i :: 0 <= i < |ps| ==> IsParagraph(ps[i])
    ensures AllShow(ps, Parts(BlocksHtml(Blocks(Strip(Join("\n\n", ps)))), 0))
  {
    hide *;
    ParagraphsSplit(ps);
    forall i | 0 <= i < |ps| ensures ps[i] != "" && VisibleEnds(ps[i]) {
      ParagraphVisible(ps[i]);
    }
    JoinedEnds("\n\n", ps);
    StripVisible(Join("\n\n", ps));
    BlocksOfText(Join("\n\n", ps));
    BlocksReadBack(ps);
  }

  lemma ParagraphVisible(p: string)
    requires IsParagraph(p)
    ensures p != "" && VisibleEnds(p)
  {
    hide IsSpace;
  }
}
