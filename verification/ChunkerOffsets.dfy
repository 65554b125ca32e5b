/** The character ranges recorded on chunks: true places, nested, and disjoint across the document. */
module ChunkerOffsets {
  import opened Text
  import opened Splitting
  import opened Windows
  import opened Chunker

  // ---------------------------------------------------------------- runs of pieces

  lemma {:induction false} TilesAt(t: string, cur: nat, first: nat, gap: nat, spans: seq<Span>, i: nat)
    requires Tiles(t, cur, first, gap, spans) && i < |spans|
    ensures cur <= spans[i].lo && Within(t, spans[i])
    ensures i + 1 < |spans| ==> spans[i].hi + gap <= spans[i + 1].lo && SpaceBetween(t, spans[i].hi, spans[i + 1].lo)
    decreases |spans|
  {
    if i > 0 {
      TilesAt(t, spans[0].hi, gap, gap, spans[1..], i - 1);
    }
  }

  // From the start of piece `a` to the end of piece `b - 1`.
  function Run(t: string, spans: seq<Span>, a: nat, b: nat): string
    requires a < b <= |spans| && spans[a].lo <= spans[b - 1].hi <= |t|
  {
    t[spans[a].lo..spans[b - 1].hi]
  }

  predicate EvenGaps(spans: seq<Span>, a: nat, b: nat, gap: nat)
    requires b <= |spans|
  {
    forall i :: a <= i < b - 1 ==> spans[i + 1].lo == spans[i].hi + gap
  }

  lemma {:induction false} RunOrder(t: string, spans: seq<Span>, a: nat, b: nat, gap: nat)
    requires Tiles(t, 0, 0, gap, spans) && a < b <= |spans|
    ensures spans[a].lo <= spans[b - 1].lo <= spans[b - 1].hi <= |t|
    decreases b
  {
    hide Tiles;
    TilesAt(t, 0, 0, gap, spans, b - 1);
    if a < b - 1 {
      TilesAt(t, 0, 0, gap, spans, b - 2);
      RunOrder(t, spans, a, b - 1, gap);
    }
  }

  lemma RunGrows(t: string, spans: seq<Span>, a: nat, b: nat, gap: nat)
    requires Tiles(t, 0, 0, gap, spans) && a < b < |spans|
    ensures spans[a].lo <= spans[b - 1].hi <= spans[b].lo <= spans[b].hi <= |t|
    ensures spans[b - 1].hi + gap <= spans[b].lo
    ensures AllSpace(t[spans[b - 1].hi..spans[b].lo])
    ensures Run(t, spans, a, b + 1) == Run(t, spans, a, b) + t[spans[b - 1].hi..spans[b].lo]
        + t[spans[b].lo..spans[b].hi]
  {
    hide Tiles, IsSpace;
    RunOrder(t, spans, a, b, gap);
    TilesAt(t, 0, 0, gap, spans, b);
    TilesAt(t, 0, 0, gap, spans, b - 1);
    SliceIsSpace(t, spans[b - 1].hi, spans[b].lo);
  }

  /** The slice a range names holds exactly the words of its pieces. */
  lemma {:induction false} RunWords(t: string, spans: seq<Span>, a: nat, b: nat, gap: nat)
    requires Tiles(t, 0, 0, gap, spans) && gap > 0 && a < b <= |spans|
    ensures AllWithin(t, spans) && spans[a].lo <= spans[b - 1].hi <= |t|
    ensures Words(Run(t, spans, a, b)) == AllWords(Pieces(t, spans)[a..b])
    decreases b
  {
    hide Tiles, Words, AllSpace, IsSpace;
    TilesWithin(t, 0, 0, gap, spans);
    var ps := Pieces(t, spans);
    RunOrder(t, spans, a, b, gap);
    if b == a + 1 {
      assert ps[a..b] == [ps[a]];
      assert AllWords([ps[a]]) == Words(ps[a]) + [] by { OneWordList(ps[a]); }
    } else {
      RunWords(t, spans, a, b - 1, gap);
      RunGrows(t, spans, a, b - 1, gap);
      WordsGap(Run(t, spans, a, b - 1), t[spans[b - 2].hi..spans[b - 1].lo], ps[b - 1]);
      assert ps[a..b] == ps[a..b - 1] + [ps[b - 1]];
      AllWordsConcat(ps[a..b - 1], [ps[b - 1]]);
      OneWordList(ps[b - 1]);
    }
  }

  lemma OneWordList(p: string)
    ensures AllWords([p]) == Words(p)
  {
    hide Words;
    assert [p][1..] == [];
    assert AllWords([p]) == Words(p) + AllWords([]);
  }

  lemma {:induction false} JoinSnoc(sep: string, parts: seq<string>, p: string)
    requires parts != []
    ensures Join(sep, parts + [p]) == Join(sep, parts) + sep + p
  {
    if |parts| > 1 {
      assert (parts + [p])[1..] == parts[1..] + [p];
      JoinSnoc(sep, parts[1..], p);
      assert Join(sep, parts + [p]) == parts[0] + sep + (Join(sep, parts[1..]) + sep + p);
    } else {
      assert (parts + [p])[1..] == [p];
    }
  }

  /** Rejoined pieces are never longer than the slice, and as long exactly when every gap is as short as it can be. */
  lemma {:induction false} JoinLength(sep: string, t: string, spans: seq<Span>, a: nat, b: nat)
    requires Tiles(t, 0, 0, |sep|, spans) && a < b <= |spans|
    ensures AllWithin(t, spans) && spans[a].lo <= spans[b - 1].hi <= |t|
    ensures |Join(sep, Pieces(t, spans)[a..b])| <= |Run(t, spans, a, b)|
    ensures |Join(sep, Pieces(t, spans)[a..b])| == |Run(t, spans, a, b)| <==> EvenGaps(spans, a, b, |sep|)
    decreases b
  {
    hide Tiles, Join, AllSpace;
    TilesWithin(t, 0, 0, |sep|, spans);
    var ps := Pieces(t, spans);
    RunOrder(t, spans, a, b, |sep|);
    if b == a + 1 {
      assert ps[a..b] == [ps[a]];
      JoinOne(sep, ps[a]);
    } else {
      JoinLength(sep, t, spans, a, b - 1);
      RunGrows(t, spans, a, b - 1, |sep|);
      assert ps[a..b] == ps[a..b - 1] + [ps[b - 1]];
      JoinSnoc(sep, ps[a..b - 1], ps[b - 1]);
    }
  }

  lemma JoinOne(sep: string, p: string)
    ensures Join(sep, [p]) == p
  {
  }

  // ---------------------------------------------------------------- paragraph gaps are newlines at both ends

  predicate NewlineGap(t: string, left: Span, right: Span) {
    left.hi < right.lo <= |t| && t[left.hi] == '\n' && t[right.lo - 1] == '\n'
  }

  predicate NewlineGaps(t: string, spans: seq<Span>) {
    |spans| <= 1 || (NewlineGap(t, spans[0], spans[1]) && NewlineGaps(t, spans[1..]))
  }

  lemma SeparatorNewlines(t: string, i: nat)
    requires i < |t| && SeparatorEnd(Paragraph, t, i) > i
    ensures t[i] == '\n' && t[SeparatorEnd(Paragraph, t, i) - 1] == '\n'
  {
  }

  lemma {:induction false} SplitAtNewlines(t: string, lo: nat, i: nat)
    requires lo <= i <= |t|
    ensures var spans := Spans(Paragraph, t, lo, i); spans != [] && spans[0].lo == lo && NewlineGaps(t, spans)
    decreases |t| - i
  {
    hide SeparatorEnd;
    if i < |t| {
      var j := SeparatorEnd(Paragraph, t, i);
      if j > i {
        SeparatorNewlines(t, i);
        SplitAtNewlines(t, j, j);
        assert ([Span(lo, i)] + Spans(Paragraph, t, j, j))[1..] == Spans(Paragraph, t, j, j);
      } else {
        SplitAtNewlines(t, lo, i + 1);
      }
    }
  }

  lemma {:induction false} NonBlankAfter(t: string, left: Span, spans: seq<Span>)
    requires AllWithin(t, spans) && NewlineGaps(t, [left] + spans)
    ensures NewlineGaps(t, [left] + NonBlank(t, spans))
    decreases |spans|
  {
    hide Blank;
    if spans != [] {
      var s, rest := spans[0], spans[1..];
      assert ([left] + spans)[1..] == spans && spans == [s] + rest;
      assert NewlineGap(t, left, s);
      if Blank(t, s) {
        assert NewlineGaps(t, [left] + rest) by { DropBlank(t, left, s, rest); }
        NonBlankAfter(t, left, rest);
        assert NonBlank(t, spans) == NonBlank(t, rest);
      } else {
        NonBlankAfter(t, s, rest);
        assert NonBlank(t, spans) == [s] + NonBlank(t, rest);
        assert ([left] + NonBlank(t, spans))[1..] == [s] + NonBlank(t, rest);
      }
    }
  }

  lemma DropBlank(t: string, left: Span, s: Span, rest: seq<Span>)
    requires Within(t, s) && NewlineGap(t, left, s) && NewlineGaps(t, [s] + rest)
    ensures NewlineGaps(t, [left] + rest)
  {
    assert ([s] + rest)[1..] == rest && ([left] + rest)[1..] == rest;
    if rest != [] {
      assert NewlineGap(t, s, rest[0]);
      assert NewlineGap(t, left, rest[0]);
    }
  }

  lemma {:induction false} NonBlankGaps(t: string, spans: seq<Span>)
    requires AllWithin(t, spans) && NewlineGaps(t, spans)
    ensures NewlineGaps(t, NonBlank(t, spans))
    decreases |spans|
  {
    hide Blank;
    if spans != [] {
      assert spans == [spans[0]] + spans[1..];
      if Blank(t, spans[0]) {
        NonBlankGaps(t, spans[1..]);
        assert NonBlank(t, spans) == NonBlank(t, spans[1..]);
      } else {
        NonBlankAfter(t, spans[0], spans[1..]);
      }
    }
  }

  lemma ParagraphGaps(t: string)
    ensures NewlineGaps(t, PieceSpans(Paragraph, t))
  {
    hide NewlineGaps, NonBlank, Spans, Tiles;
    SplitAtNewlines(t, 0, 0);
    SpansTile(Paragraph, t, 0, 0);
    TilesWithin(t, 0, 0, 2, Spans(Paragraph, t, 0, 0));
    NonBlankGaps(t, Spans(Paragraph, t, 0, 0));
  }

  lemma {:induction false} NewlineGapAt(t: string, spans: seq<Span>, i: nat)
    requires NewlineGaps(t, spans) && i + 1 < |spans|
    ensures NewlineGap(t, spans[i], spans[i + 1])
    decreases |spans|
  {
    hide NewlineGap;
    if i > 0 {
      NewlineGapAt(t, spans[1..], i - 1);
    }
  }

  // One more piece, two newlines away, is one more piece in the join.
  lemma EvenRunGrows(t: string, spans: seq<Span>, a: nat, b: nat)
    requires Tiles(t, 0, 0, 2, spans) && NewlineGaps(t, spans) && a < b < |spans|
    requires spans[b].lo == spans[b - 1].hi + 2
    ensures AllWithin(t, spans)
    ensures spans[a].lo <= spans[b - 1].hi && spans[a].lo <= spans[b].hi
    ensures Run(t, spans, a, b + 1) == Run(t, spans, a, b) + "\n\n" + Pieces(t, spans)[b]
  {
    hide Tiles, NewlineGaps, NewlineGap, AllSpace, Run;
    TilesWithin(t, 0, 0, 2, spans);
    RunGrows(t, spans, a, b, 2);
    NewlineGapAt(t, spans, b - 1);
    TwoNewlines(t, spans[b - 1], spans[b]);
  }

  lemma {:induction false} EvenRunIsJoin(t: string, spans: seq<Span>, a: nat, b: nat)
    requires Tiles(t, 0, 0, 2, spans) && NewlineGaps(t, spans) && a < b <= |spans|
    requires EvenGaps(spans, a, b, 2)
    ensures AllWithin(t, spans) && spans[a].lo <= spans[b - 1].hi <= |t|
    ensures Run(t, spans, a, b) == Join("\n\n", Pieces(t, spans)[a..b])
    decreases b
  {
    hide Tiles, NewlineGaps, Join, Run;
    TilesWithin(t, 0, 0, 2, spans);
    RunOrder(t, spans, a, b, 2);
    var ps := Pieces(t, spans);
    if b == a + 1 {
      assert ps[a..b] == [ps[a]];
      JoinOne("\n\n", ps[a]);
      RunOne(t, spans, a);
    } else {
      EvenRunIsJoin(t, spans, a, b - 1);
      EvenRunGrows(t, spans, a, b - 1);
      hide Pieces;
      assert ps[a..b] == ps[a..b - 1] + [ps[b - 1]];
      JoinSnoc("\n\n", ps[a..b - 1], ps[b - 1]);
    }
  }

  lemma RunOne(t: string, spans: seq<Span>, a: nat)
    requires AllWithin(t, spans) && a < |spans|
    ensures Run(t, spans, a, a + 1) == Pieces(t, spans)[a]
  {
  }

  lemma TwoNewlines(t: string, left: Span, right: Span)
    requires NewlineGap(t, left, right) && right.lo == left.hi + 2
    ensures t[left.hi..right.lo] == "\n\n"
  {
  }

  // ---------------------------------------------------------------- parents

  lemma ExactOffsets(rule: Rule, t: string)
    ensures Offsets(t, Pieces(t, PieceSpans(rule, t)), 0) == PieceSpans(rule, t)
  {
    hide Offsets, PieceSpans, Pieces;
    OffsetsExact(t, 0, 0, MinGap(rule), PieceSpans(rule, t));
  }

  lemma ParentIs(cfg: Config, text: string, sectionOffset: nat, i: nat)
    requires i < |ParentChunks(cfg, text, sectionOffset)|
    ensures i < |ParentGroups(cfg, text)|
    ensures var spans := PieceSpans(Paragraph, text); var g := ParentGroups(cfg, text)[i];
      && g.lo < g.hi <= |spans|
      && spans[g.lo].lo <= spans[g.hi - 1].hi <= |text|
      && ParentChunks(cfg, text, sectionOffset)[i]
         == MakeChunk(Join("\n\n", Paragraphs(text)[g.lo..g.hi]),
                      sectionOffset + spans[g.lo].lo, sectionOffset + spans[g.hi - 1].hi)
  {
    hide Offsets, PieceSpans, Pieces, ParentGroups, Tiles, MakeChunk;
    ExactOffsets(Paragraph, text);
    var g := ParentGroups(cfg, text)[i];
    RunOrder(text, PieceSpans(Paragraph, text), g.lo, g.hi, 2);
  }

  /** The slice from the first to the last piece of a group, against the pieces rejoined. */
  ghost predicate GroupSlice(t: string, spans: seq<Span>, g: Span, content: string) {
    && Proper(|spans|, g)
    && spans[g.lo].lo <= spans[g.hi - 1].hi <= |t|
    && var s := t[spans[g.lo].lo..spans[g.hi - 1].hi];
      && Words(s) == Words(content)
      && |content| <= |s|
      && (s == content <==> EvenGaps(spans, g.lo, g.hi, 2))
      && (s == content <==> |content| == |s|)
  }

  lemma GroupText(t: string, spans: seq<Span>, g: Span)
    requires Tiles(t, 0, 0, 2, spans) && NewlineGaps(t, spans) && Proper(|spans|, g)
    ensures AllWithin(t, spans)
    ensures GroupSlice(t, spans, g, Join("\n\n", Pieces(t, spans)[g.lo..g.hi]))
  {
    hide Pieces, Join, Words, AllWords, Tiles, EvenGaps, NewlineGaps;
    RunWords(t, spans, g.lo, g.hi, 2);
    WordsOfJoin("\n\n", Pieces(t, spans)[g.lo..g.hi]);
    JoinLength("\n\n", t, spans, g.lo, g.hi);
    if EvenGaps(spans, g.lo, g.hi, 2) {
      EvenRunIsJoin(t, spans, g.lo, g.hi);
    }
  }

  ghost predicate ParentRange(text: string, sectionOffset: nat, p: Chunk, g: Span) {
    var spans := PieceSpans(Paragraph, text);
    && GroupSlice(text, spans, g, p.content)
    && p.charStart == sectionOffset + spans[g.lo].lo
    && p.charEnd == sectionOffset + spans[g.hi - 1].hi
  }

  /**
   * A parent's recorded range runs from the true start of its first paragraph to the true end of its last,
   * and holds exactly its words; the slice is the content, character for character, iff the paragraphs of
   * the group are exactly two characters apart.
   */
  lemma ParentRangeIsTrue(cfg: Config, text: string, sectionOffset: nat, i: nat)
    requires i < |ParentChunks(cfg, text, sectionOffset)|
    ensures i < |ParentGroups(cfg, text)|
    ensures ParentRange(text, sectionOffset, ParentChunks(cfg, text, sectionOffset)[i], ParentGroups(cfg, text)[i])
  {
    hide PieceSpans, Join, Words, ParentGroups, ParentChunks, GroupSlice, Tiles, NewlineGaps, TokenEstimate;
    ParentIs(cfg, text, sectionOffset, i);
    ParagraphGaps(text);
    GroupText(text, PieceSpans(Paragraph, text), ParentGroups(cfg, text)[i]);
  }

  lemma {:induction false} SpansApart(t: string, spans: seq<Span>, gap: nat, i: nat, j: nat)
    requires Tiles(t, 0, 0, gap, spans) && i < j < |spans|
    ensures spans[i].hi + gap <= spans[j].lo
    decreases j
  {
    hide Tiles;
    TilesAt(t, 0, 0, gap, spans, j - 1);
    if i < j - 1 {
      SpansApart(t, spans, gap, i, j - 1);
    }
  }

  lemma {:induction false} PartitionOrder(n: nat, a: nat, gs: seq<Span>, i: nat, j: nat)
    requires Partition(n, a, gs) && i < j < |gs|
    ensures gs[i].hi <= gs[j].lo
    decreases |gs|
  {
    if i > 0 {
      PartitionOrder(n, gs[0].hi, gs[1..], i - 1, j - 1);
    } else if j > 1 {
      PartitionOrder(n, gs[0].hi, gs[1..], 0, j - 1);
    }
  }

  /** Within a section the parents' ranges are disjoint and increasing, with the paragraph gap between them. */
  lemma ParentsApart(cfg: Config, text: string, sectionOffset: nat, i: nat, j: nat)
    requires i < j < |ParentChunks(cfg, text, sectionOffset)|
    ensures var ps := ParentChunks(cfg, text, sectionOffset); ps[i].charEnd + 2 <= ps[j].charStart
  {
    hide PieceSpans, Paragraphs, Join, ParentChunks, Tiles, Partition, Groups, Estimates;
    ParentIs(cfg, text, sectionOffset, i);
    ParentIs(cfg, text, sectionOffset, j);
    var gs := ParentGroups(cfg, text);
    GroupsPartition(Estimates(Paragraphs(text)), 0, cfg.parentMaxTokens);
    PartitionOrder(|Paragraphs(text)|, 0, gs, i, j);
    SpansApart(text, PieceSpans(Paragraph, text), 2, gs[i].hi - 1, gs[j].lo);
  }

  // ---------------------------------------------------------------- children

  /**
   * A child's range lies inside its parent's, and the slice of the parent's content it names holds exactly its
   * words.
   */
  lemma ChildRangeIsTrue(cfg: Config, parent: Chunk, i: nat)
    requires i < |ChildChunks(cfg, parent)|
    requires |parent.content| <= parent.charEnd - parent.charStart
    ensures var c := ChildChunks(cfg, parent)[i];
      && parent.charStart <= c.charStart <= c.charEnd <= parent.charEnd
      && c.charEnd - parent.charStart <= |parent.content|
      && Words(parent.content[c.charStart - parent.charStart..c.charEnd - parent.charStart]) == Words(c.content)
  {
    hide Offsets, PieceSpans, Pieces, ChildWindows, Tiles, Words, AllWords, Join, TokenEstimate;
    var t, spans := parent.content, PieceSpans(Sentence, parent.content);
    ExactOffsets(Sentence, t);
    var w := ChildWindows(cfg, t)[i];
    RunOrder(t, spans, w.lo, w.hi, 1);
    RunWords(t, spans, w.lo, w.hi, 1);
    WordsOfJoin(" ", Sentences(t)[w.lo..w.hi]);
  }

  // ---------------------------------------------------------------- the whole document

  // The sections as one text, as the offsets count it.
  function DocumentText(sections: seq<string>): string {
    Join("\n\n", sections)
  }

  ghost predicate FamilyInText(doc: string, offset: nat, f: Family) {
    && offset <= f.parent.charStart <= f.parent.charEnd <= offset + |doc|
    && Words(doc[f.parent.charStart - offset..f.parent.charEnd - offset]) == Words(f.parent.content)
    && |f.parent.content| <= f.parent.charEnd - f.parent.charStart
    && (|f.parent.content| == f.parent.charEnd - f.parent.charStart
        <==> doc[f.parent.charStart - offset..f.parent.charEnd - offset] == f.parent.content)
    && forall c :: c in f.children ==> f.parent.charStart <= c.charStart <= c.charEnd <= f.parent.charEnd
  }

  lemma SectionFamilies(cfg: Config, text: string, offset: nat, i: nat)
    requires i < |ParentChunks(cfg, text, offset)|
    ensures FamilyInText(text, offset,
        Family(ParentChunks(cfg, text, offset)[i], ChildChunks(cfg, ParentChunks(cfg, text, offset)[i])))
  {
    hide ParentChunks, ChildChunks, Words, PieceSpans, EvenGaps, ParentGroups, Tiles;
    ParentRangeIsTrue(cfg, text, offset, i);
    var p := ParentChunks(cfg, text, offset)[i];
    forall c | c in ChildChunks(cfg, p) ensures p.charStart <= c.charStart <= c.charEnd <= p.charEnd {
      var k :| 0 <= k < |ChildChunks(cfg, p)| && ChildChunks(cfg, p)[k] == c;
      ChildRangeIsTrue(cfg, p, k);
    }
  }

  lemma SliceOfLeft(a: string, b: string, x: nat, y: nat)
    requires x <= y <= |a|
    ensures (a + b)[x..y] == a[x..y]
  {
    assert (a + b)[..|a|] == a;
    assert (a + b)[x..y] == (a + b)[..|a|][x..y];
  }

  lemma SliceOfRight(a: string, b: string, x: nat, y: nat)
    requires |a| <= x <= y <= |a| + |b|
    ensures (a + b)[x..y] == b[x - |a|..y - |a|]
  {
    assert (a + b)[|a|..] == b;
    assert (a + b)[x..y] == (a + b)[|a|..][x - |a|..y - |a|];
  }

  lemma InEarlierText(a: string, b: string, offset: nat, f: Family)
    requires FamilyInText(a, offset, f)
    ensures FamilyInText(a + b, offset, f)
  {
    hide Words;
    SliceOfLeft(a, b, f.parent.charStart - offset, f.parent.charEnd - offset);
  }

  lemma InLaterText(a: string, b: string, offset: nat, f: Family)
    requires FamilyInText(b, offset + |a|, f)
    ensures FamilyInText(a + b, offset, f)
  {
    hide Words;
    SliceOfRight(a, b, f.parent.charStart - offset, f.parent.charEnd - offset);
  }

  /**
   * Every recorded range, in any section, is a true place in the document text, with the children inside their
   * parent.
   */
  lemma {:induction false} DocumentRanges(cfg: Config, sections: seq<string>, offset: nat, i: nat)
    requires i < |DocumentFamilies(cfg, sections, offset)|
    ensures FamilyInText(DocumentText(sections), offset, DocumentFamilies(cfg, sections, offset)[i])
    decreases |sections|
  {
    hide ParentChunks, ChildChunks, FamilyInText;
    var text, rest := sections[0], sections[1..];
    var first := Families(cfg, ParentChunks(cfg, text, offset));
    var f := DocumentFamilies(cfg, sections, offset)[i];
    if i < |first| {
      SectionFamilies(cfg, text, offset, i);
    } else {
      DocumentRanges(cfg, rest, offset + |text| + 2, i - |first|);
    }
    if rest != [] {
      assert DocumentText(sections) == text + "\n\n" + DocumentText(rest);
      if i < |first| {
        InEarlierText(text, "\n\n" + DocumentText(rest), offset, f);
        assert text + ("\n\n" + DocumentText(rest)) == DocumentText(sections);
      } else {
        InLaterText(text + "\n\n", DocumentText(rest), offset, f);
      }
    }
  }

  lemma {:induction false} FamilyIsWhole(cfg: Config, sections: seq<string>, offset: nat, i: nat)
    requires i < |DocumentFamilies(cfg, sections, offset)|
    ensures var f := DocumentFamilies(cfg, sections, offset)[i]; f.children == ChildChunks(cfg, f.parent)
    decreases |sections|
  {
    hide ParentChunks, ChildChunks;
    var first := Families(cfg, ParentChunks(cfg, sections[0], offset));
    if i >= |first| {
      FamilyIsWhole(cfg, sections[1..], offset + |sections[0]| + 2, i - |first|);
    }
  }

  lemma SliceOfSlice(s: string, a: nat, b: nat, x: nat, y: nat)
    requires a <= b <= |s| && x <= y <= b - a
    ensures s[a..b][x..y] == s[a + x..a + y]
  {
    var inner, outer := s[a..b][x..y], s[a + x..a + y];
    assert |inner| == |outer| && forall k :: 0 <= k < |inner| ==> inner[k] == s[a..b][x + k] == outer[k];
  }

  /**
   * A parent whose recorded range is as long as its content is cut out of the document exactly, and then so is
   * every child: the slice its range names in the document holds exactly its words.
   */
  lemma DocumentChildRanges(cfg: Config, sections: seq<string>, offset: nat, i: nat, j: nat)
    requires i < |DocumentFamilies(cfg, sections, offset)|
    requires j < |DocumentFamilies(cfg, sections, offset)[i].children|
    requires var p := DocumentFamilies(cfg, sections, offset)[i].parent; |p.content| == p.charEnd - p.charStart
    ensures var c := DocumentFamilies(cfg, sections, offset)[i].children[j];
      && offset <= c.charStart <= c.charEnd <= offset + |DocumentText(sections)|
      && Words(DocumentText(sections)[c.charStart - offset..c.charEnd - offset]) == Words(c.content)
  {
    hide DocumentFamilies, DocumentText, ChildChunks, Words;
    var doc, f := DocumentText(sections), DocumentFamilies(cfg, sections, offset)[i];
    var p, c := f.parent, f.children[j];
    DocumentRanges(cfg, sections, offset, i);
    FamilyIsWhole(cfg, sections, offset, i);
    ChildRangeIsTrue(cfg, p, j);
    SliceOfSlice(doc, p.charStart - offset, p.charEnd - offset, c.charStart - p.charStart, c.charEnd - p.charStart);
  }

  /** Parent ranges are disjoint and increasing across the whole document, section boundaries included. */
  lemma {:induction false} DocumentParentsApart(cfg: Config, sections: seq<string>, offset: nat, i: nat, j: nat)
    requires i < j < |DocumentFamilies(cfg, sections, offset)|
    ensures var fs := DocumentFamilies(cfg, sections, offset); fs[i].parent.charEnd + 2 <= fs[j].parent.charStart
    decreases |sections|
  {
    hide ParentChunks, ChildChunks, FamilyInText;
    var text, rest := sections[0], sections[1..];
    var first := Families(cfg, ParentChunks(cfg, text, offset));
    var fs := DocumentFamilies(cfg, sections, offset);
    var next := offset + |text| + 2;
    if j < |first| {
      ParentsApart(cfg, text, offset, i, j);
    } else if i >= |first| {
      DocumentParentsApart(cfg, rest, next, i - |first|, j - |first|);
    } else {
      SectionFamilies(cfg, text, offset, i);
      FamilyBounds(text, offset, fs[i]);
      DocumentRanges(cfg, rest, next, j - |first|);
      FamilyBounds(DocumentText(rest), next, fs[j]);
    }
  }

  lemma FamilyBounds(doc: string, offset: nat, f: Family)
    requires FamilyInText(doc, offset, f)
    ensures offset <= f.parent.charStart <= f.parent.charEnd <= offset + |doc|
  {
  }
}
