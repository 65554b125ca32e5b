/** Chunking loses no word: a section is recovered from its parents, and from its children. */
module ChunkerWords {
  import opened Text
  import opened Splitting
  import opened Windows
  import opened Chunker

  function ContentWords(chunks: seq<Chunk>): seq<string> {
    if chunks == [] then [] else Words(chunks[0].content) + ContentWords(chunks[1..])
  }

  lemma PiecesKeepWords(rule: Rule, t: string)
    ensures AllWords(Pieces(t, PieceSpans(rule, t))) == Words(t)
  {
    hide Words, AllWords, PieceSpans;
    TilesKeepWords(t, 0, 0, MinGap(rule), PieceSpans(rule, t));
    assert t[0..] == t;
  }

  // ---------------------------------------------------------------- parents

  lemma {:induction false} GroupedWords(pieces: seq<string>, offsets: seq<Span>, base: nat, a: nat, gs: seq<Span>)
    requires |offsets| == |pieces| && AllProper(|pieces|, gs) && a <= |pieces| && Partition(|pieces|, a, gs)
    ensures ContentWords(WindowChunks("\n\n", pieces, offsets, base, gs)) == AllWords(pieces[a..])
    decreases |gs|
  {
    hide Words, AllWords, Join, TokenEstimate;
    if gs == [] {
      assert pieces[a..] == [];
      assert AllWords([]) == [] by { NoWords(); }
    } else {
      var chunks := WindowChunks("\n\n", pieces, offsets, base, gs);
      assert chunks[1..] == WindowChunks("\n\n", pieces, offsets, base, gs[1..]);
      GroupedWords(pieces, offsets, base, gs[0].hi, gs[1..]);
      assert pieces[a..] == pieces[a..gs[0].hi] + pieces[gs[0].hi..];
      AllWordsConcat(pieces[a..gs[0].hi], pieces[gs[0].hi..]);
      JoinedByNewlines(pieces[a..gs[0].hi]);
    }
  }

  lemma NoWords()
    ensures AllWords([]) == []
  {
  }

  lemma JoinedByNewlines(parts: seq<string>)
    ensures Words(Join("\n\n", parts)) == AllWords(parts)
  {
    hide Words, AllWords, Join;
    WordsOfJoin("\n\n", parts);
  }

  lemma JoinedBySpaces(parts: seq<string>)
    ensures Words(Join(" ", parts)) == AllWords(parts)
  {
    hide Words, AllWords, Join;
    WordsOfJoin(" ", parts);
  }

  /** The parents of a section hold exactly its words, in order. */
  lemma ParentsKeepWords(cfg: Config, text: string, sectionOffset: nat)
    ensures ContentWords(ParentChunks(cfg, text, sectionOffset)) == Words(text)
  {
    hide ContentWords, WindowChunks, Words, AllWords, Offsets, PieceSpans, Pieces, Estimates, Groups, Partition;
    var ps := Paragraphs(text);
    PiecesKeepWords(Paragraph, text);
    GroupsPartition(Estimates(ps), 0, cfg.parentMaxTokens);
    GroupedWords(ps, Offsets(text, ps, 0), sectionOffset, 0, ParentGroups(cfg, text));
    assert ps[0..] == ps;
  }

  // ---------------------------------------------------------------- children

  function Drop<T>(s: seq<T>, n: nat): seq<T> {
    if n <= |s| then s[n..] else []
  }

  /** The words of each child without those of the sentences it shares with the child before it. */
  function NewWords(children: seq<Chunk>, sentences: seq<string>, covered: nat, ws: seq<Span>): seq<string>
    requires |children| == |ws| && Covers(|sentences|, covered, ws)
    decreases |ws|
  {
    if ws == [] then [] else
    Drop(Words(children[0].content), |AllWords(sentences[ws[0].lo..covered])|)
      + NewWords(children[1..], sentences, ws[0].hi, ws[1..])
  }

  lemma {:induction false} NewWordsAreAll(sentences: seq<string>, offsets: seq<Span>, base: nat, covered: nat,
                                          ws: seq<Span>)
    requires |offsets| == |sentences| && AllProper(|sentences|, ws)
    requires covered <= |sentences| && Covers(|sentences|, covered, ws)
    ensures NewWords(WindowChunks(" ", sentences, offsets, base, ws), sentences, covered, ws)
        == AllWords(sentences[covered..])
    decreases |ws|
  {
    hide Words, AllWords, Join, TokenEstimate, Drop;
    if ws == [] {
      assert sentences[covered..] == [];
      assert AllWords([]) == [] by { NoWords(); }
    } else {
      var w := ws[0];
      var chunks := WindowChunks(" ", sentences, offsets, base, ws);
      assert chunks[1..] == WindowChunks(" ", sentences, offsets, base, ws[1..]);
      NewWordsAreAll(sentences, offsets, base, w.hi, ws[1..]);
      JoinedBySpaces(sentences[w.lo..w.hi]);
      DropShared(sentences, w.lo, covered, w.hi);
      assert sentences[covered..] == sentences[covered..w.hi] + sentences[w.hi..];
      AllWordsConcat(sentences[covered..w.hi], sentences[w.hi..]);
    }
  }

  lemma DropShared(sentences: seq<string>, a: nat, b: nat, c: nat)
    requires a <= b <= c <= |sentences|
    ensures Drop(AllWords(sentences[a..c]), |AllWords(sentences[a..b])|) == AllWords(sentences[b..c])
  {
    hide AllWords;
    assert sentences[a..c] == sentences[a..b] + sentences[b..c];
    AllWordsConcat(sentences[a..b], sentences[b..c]);
  }

  lemma ChildWindowsCover(cfg: Config, content: string)
    ensures Covers(|Sentences(content)|, 0, ChildWindows(cfg, content))
  {
    hide Sentences, WindowsFrom, WindowEnd;
    var tok := Estimates(Sentences(content));
    if tok != [] {
      WindowsCover(tok, 0, cfg.childMaxTokens, cfg.childOverlapTokens, 0);
    }
  }

  /** The words the children of one parent add, each child's overlap with its predecessor left out. */
  function WordsFromChildren(cfg: Config, parent: Chunk): seq<string> {
    ChildWindowsCover(cfg, parent.content);
    NewWords(ChildChunks(cfg, parent), Sentences(parent.content), 0, ChildWindows(cfg, parent.content))
  }

  /** The children of a parent hold exactly its words, in order, once their overlaps are dropped. */
  lemma ChildrenKeepWords(cfg: Config, parent: Chunk)
    ensures WordsFromChildren(cfg, parent) == Words(parent.content)
  {
    hide NewWords, WindowChunks, Words, AllWords, Offsets, PieceSpans, Pieces, ChildWindows, Covers;
    var ps := Sentences(parent.content);
    ChildWindowsCover(cfg, parent.content);
    PiecesKeepWords(Sentence, parent.content);
    NewWordsAreAll(ps, Offsets(parent.content, ps, 0), parent.charStart, 0, ChildWindows(cfg, parent.content));
    assert ps[0..] == ps;
  }

  function WordsFromFamilies(cfg: Config, parents: seq<Chunk>): seq<string> {
    if parents == [] then [] else WordsFromChildren(cfg, parents[0]) + WordsFromFamilies(cfg, parents[1..])
  }

  lemma {:induction false} FamiliesKeepWords(cfg: Config, parents: seq<Chunk>)
    ensures WordsFromFamilies(cfg, parents) == ContentWords(parents)
  {
    hide WordsFromChildren, Words;
    if parents != [] {
      ChildrenKeepWords(cfg, parents[0]);
      FamiliesKeepWords(cfg, parents[1..]);
    }
  }

  /** A section's words are recovered from its children, each cut by what it shares with the one before. */
  lemma SectionFromChildren(cfg: Config, text: string, sectionOffset: nat)
    ensures WordsFromFamilies(cfg, ParentChunks(cfg, text, sectionOffset)) == Words(text)
  {
    hide WordsFromFamilies, ContentWords, ParentChunks, Words;
    FamiliesKeepWords(cfg, ParentChunks(cfg, text, sectionOffset));
    ParentsKeepWords(cfg, text, sectionOffset);
  }
}
