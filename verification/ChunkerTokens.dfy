/** Token budgets: what greedy windows guarantee about the estimate of the rejoined chunk. */
module ChunkerTokens {
  import opened Text
  import opened Splitting
  import opened Windows
  import opened Chunker

  // Rounding down piece by piece loses at most 9 tenths a piece.
  lemma {:induction false} TenthsOfWords(pieces: seq<string>, a: nat, b: nat)
    requires a <= b <= |pieces|
    ensures 10 * Sum(Estimates(pieces), a, b) <= 13 * |AllWords(pieces[a..b])|
    ensures 13 * |AllWords(pieces[a..b])| <= 10 * Sum(Estimates(pieces), a, b) + 9 * (b - a)
    decreases b
  {
    hide Words, AllWords;
    if a == b {
      assert pieces[a..b] == [];
      assert AllWords([]) == [] by { NoPieces(); }
    } else {
      TenthsOfWords(pieces, a, b - 1);
      LastPieceWords(pieces, a, b);
    }
  }

  lemma NoPieces()
    ensures AllWords([]) == []
  {
  }

  lemma LastPieceWords(pieces: seq<string>, a: nat, b: nat)
    requires a < b <= |pieces|
    ensures |AllWords(pieces[a..b])| == |AllWords(pieces[a..b - 1])| + |Words(pieces[b - 1])|
  {
    hide Words;
    var p := pieces[b - 1];
    assert pieces[a..b] == pieces[a..b - 1] + [p];
    AllWordsConcat(pieces[a..b - 1], [p]);
    assert [p][1..] == [];
    assert AllWords([p]) == Words(p) + AllWords([]);
  }

  lemma {:induction false} WordsWithinEstimates(pieces: seq<string>, a: nat, b: nat)
    requires a <= b <= |pieces| && forall i :: a <= i < b ==> !AllSpace(pieces[i])
    ensures |AllWords(pieces[a..b])| <= Sum(Estimates(pieces), a, b)
    decreases b
  {
    hide Words, AllWords, AllSpace;
    if a == b {
      assert pieces[a..b] == [];
      assert AllWords([]) == [] by { NoPieces(); }
    } else {
      WordsWithinEstimates(pieces, a, b - 1);
      LastPieceWords(pieces, a, b);
      WordsNonBlank(pieces[b - 1]);
    }
  }

  /**
   * The estimate of rejoined pieces lies between the sum of the piece estimates and that sum plus one less
   * than the number of pieces.
   */
  lemma RejoinedEstimate(sep: string, pieces: seq<string>, w: Span)
    requires sep != "" && AllSpace(sep) && Proper(|pieces|, w)
    ensures var est, sum := TokenEstimate(Join(sep, pieces[w.lo..w.hi])), Sum(Estimates(pieces), w.lo, w.hi);
      sum <= est <= sum + (w.hi - w.lo - 1)
  {
    hide Words, AllWords, AllSpace, Sum, Join;
    WordsOfJoin(sep, pieces[w.lo..w.hi]);
    TenthsOfWords(pieces, w.lo, w.hi);
  }

  /** A greedy window of several pieces keeps its rejoined estimate under 13/10 of the budget. */
  lemma GreedyEstimate(sep: string, pieces: seq<string>, w: Span, budget: nat)
    requires sep != "" && AllSpace(sep) && Proper(|pieces|, w)
    requires forall i :: w.lo <= i < w.hi ==> !AllSpace(pieces[i])
    requires Greedy(Estimates(pieces), w, budget)
    ensures w.hi - w.lo > 1 ==>
      && Sum(Estimates(pieces), w.lo, w.hi) <= budget
      && TokenEstimate(Join(sep, pieces[w.lo..w.hi])) <= 13 * budget / 10
  {
    hide Words, AllWords, AllSpace, Sum, Join, Estimates;
    assert Fits(Estimates(pieces), w.lo, w.hi, budget);
    WordsOfJoin(sep, pieces[w.lo..w.hi]);
    WordsWithinEstimates(pieces, w.lo, w.hi);
  }

  /** The bound is reached: a budget's worth of one-word pieces is one window, and its estimate is the bound. */
  lemma OneWordPieces(sep: string, pieces: seq<string>, a: nat, b: nat)
    requires sep != "" && AllSpace(sep) && a < b <= |pieces|
    requires forall i :: a <= i < b ==> |Words(pieces[i])| == 1
    ensures Sum(Estimates(pieces), a, b) == b - a
    ensures TokenEstimate(Join(sep, pieces[a..b])) == 13 * (b - a) / 10
  {
    hide Words, AllWords, AllSpace, Join;
    CountOneWord(pieces, a, b);
    WordsOfJoin(sep, pieces[a..b]);
  }

  lemma {:induction false} CountOneWord(pieces: seq<string>, a: nat, b: nat)
    requires a <= b <= |pieces| && forall i :: a <= i < b ==> |Words(pieces[i])| == 1
    ensures Sum(Estimates(pieces), a, b) == b - a == |AllWords(pieces[a..b])|
    decreases b
  {
    hide Words, AllWords;
    if a == b {
      assert pieces[a..b] == [];
      assert AllWords([]) == [] by { NoPieces(); }
    } else {
      CountOneWord(pieces, a, b - 1);
      LastPieceWords(pieces, a, b);
    }
  }

  // ---------------------------------------------------------------- the chunks the splitter makes

  lemma PiecesVisible(rule: Rule, t: string, i: nat)
    requires i < |PieceSpans(rule, t)|
    ensures !AllSpace(Pieces(t, PieceSpans(rule, t))[i])
  {
    hide Tiles, AllSpace;
    assert !Blank(t, PieceSpans(rule, t)[i]);
  }

  ghost predicate WithinBudget(c: Chunk, pieces: seq<string>, w: Span, budget: nat) {
    && Proper(|pieces|, w)
    && var sum := Sum(Estimates(pieces), w.lo, w.hi);
      && sum <= c.tokenEstimate <= sum + (w.hi - w.lo - 1)
      && (w.hi - w.lo > 1 ==> sum <= budget && c.tokenEstimate <= 13 * budget / 10)
      && (w.hi < |pieces| ==> sum + Estimates(pieces)[w.hi] > budget)
  }

  lemma WindowWithinBudget(sep: string, rule: Rule, t: string, offsets: seq<Span>, base: nat, w: Span, budget: nat)
    requires sep != "" && AllSpace(sep)
    requires var ps := Pieces(t, PieceSpans(rule, t));
      |offsets| == |ps| && Proper(|ps|, w) && Greedy(Estimates(ps), w, budget)
    ensures var ps := Pieces(t, PieceSpans(rule, t));
      WithinBudget(WindowChunk(sep, ps, offsets, base, w), ps, w, budget)
  {
    hide PieceSpans, Pieces, AllSpace, Join, TokenEstimate, Estimates, Sum, Greedy;
    var ps := Pieces(t, PieceSpans(rule, t));
    forall i | w.lo <= i < w.hi ensures !AllSpace(ps[i]) {
      PiecesVisible(rule, t, i);
    }
    RejoinedEstimate(sep, ps, w);
    GreedyEstimate(sep, ps, w, budget);
    if w.hi < |ps| {
      GreedyIsFull(Estimates(ps), w, budget);
    }
  }

  lemma GreedyIsFull(tok: seq<nat>, w: Span, budget: nat)
    requires Greedy(tok, w, budget) && w.hi < |tok|
    ensures Sum(tok, w.lo, w.hi) + tok[w.hi] > budget
  {
    assert !Fits(tok, w.lo, w.hi + 1, budget);
  }

  /**
   * Every parent is within its budget: at most 13/10 of it unless it is one oversized paragraph, and never
   * closed while the next paragraph still fitted.
   */
  lemma ParentsWithinBudget(cfg: Config, text: string, sectionOffset: nat, i: nat)
    requires i < |ParentChunks(cfg, text, sectionOffset)|
    ensures i < |ParentGroups(cfg, text)|
    ensures WithinBudget(ParentChunks(cfg, text, sectionOffset)[i], Paragraphs(text), ParentGroups(cfg, text)[i],
        cfg.parentMaxTokens)
  {
    hide Offsets, PieceSpans, Pieces, AllSpace, WindowChunk, Estimates, Groups, Greedy, WithinBudget;
    var ps := Paragraphs(text);
    GroupsGreedy(Estimates(ps), 0, cfg.parentMaxTokens);
    assert AllSpace("\n\n") by { NewlinesAreSpace(); }
    var g := ParentGroups(cfg, text)[i];
    WindowWithinBudget("\n\n", Paragraph, text, Offsets(text, ps, 0), sectionOffset, g, cfg.parentMaxTokens);
  }

  lemma NewlinesAreSpace()
    ensures AllSpace("\n\n") && AllSpace(" ")
  {
  }

  /** The same for every child; and the children's windows advance, reach the end and overlap as little as asked. */
  lemma ChildrenWithinBudget(cfg: Config, parent: Chunk, i: nat)
    requires i < |ChildChunks(cfg, parent)|
    ensures i < |ChildWindows(cfg, parent.content)|
    ensures WithinBudget(ChildChunks(cfg, parent)[i], Sentences(parent.content), ChildWindows(cfg, parent.content)[i],
        cfg.childMaxTokens)
  {
    hide Offsets, PieceSpans, Pieces, AllSpace, WindowChunk, Estimates, WindowsFrom, Greedy, WithinBudget;
    var ps := Sentences(parent.content);
    ChildWindowsAre(cfg, parent.content);
    var w := ChildWindows(cfg, parent.content)[i];
    WindowsGreedy(Estimates(ps), 0, cfg.childMaxTokens, cfg.childOverlapTokens);
    assert AllSpace(" ") by { NewlinesAreSpace(); }
    WindowWithinBudget(" ", Sentence, parent.content, Offsets(parent.content, ps, 0), parent.charStart, w,
        cfg.childMaxTokens);
  }

  lemma ChildrenProgress(cfg: Config, content: string)
    requires Sentences(content) != []
    ensures Progress(Estimates(Sentences(content)), ChildWindows(cfg, content), cfg.childOverlapTokens)
    ensures ChildWindows(cfg, content)[0].lo == 0 && |ChildWindows(cfg, content)| <= |Sentences(content)|
  {
    hide Sentences, Progress, Estimates, WindowsFrom;
    ChildWindowsAre(cfg, content);
    WindowsProgress(Estimates(Sentences(content)), 0, cfg.childMaxTokens, cfg.childOverlapTokens);
  }

  /** With the default budgets a chunk of several pieces is estimated at most 2600 tokens, a child at most 260. */
  lemma DefaultParentEstimate(text: string, sectionOffset: nat, i: nat)
    requires i < |ParentChunks(DEFAULT, text, sectionOffset)|
    ensures i < |ParentGroups(DEFAULT, text)|
    ensures var g := ParentGroups(DEFAULT, text)[i];
      g.hi - g.lo > 1 ==> ParentChunks(DEFAULT, text, sectionOffset)[i].tokenEstimate <= 2600
  {
    hide ParentChunks, ParentGroups, Paragraphs, Estimates, Sum;
    ParentsWithinBudget(DEFAULT, text, sectionOffset, i);
  }

  lemma DefaultChildEstimate(parent: Chunk, i: nat)
    requires i < |ChildChunks(DEFAULT, parent)|
    ensures i < |ChildWindows(DEFAULT, parent.content)|
    ensures var w := ChildWindows(DEFAULT, parent.content)[i];
      w.hi - w.lo > 1 ==> ChildChunks(DEFAULT, parent)[i].tokenEstimate <= 260
  {
    hide ChildChunks, ChildWindows, Sentences, Estimates, Sum;
    ChildrenWithinBudget(DEFAULT, parent, i);
  }

  /** With the defaults each child starts with the shortest run of sentences at the end of the one before worth 20. */
  lemma DefaultOverlap(content: string, i: nat)
    requires i + 1 < |ChildWindows(DEFAULT, content)|
    ensures var tok := Estimates(Sentences(content));
      var w, next := ChildWindows(DEFAULT, content)[i], ChildWindows(DEFAULT, content)[i + 1];
      && w.lo < next.lo <= w.hi <= |tok|
      && (next.lo == w.lo + 1 || Sum(tok, next.lo, w.hi) >= 20)
      && forall k :: next.lo < k <= w.hi ==> Sum(tok, k, w.hi) < 20
  {
    assert Sentences(content) != [] by { NoWindows(content); }
    hide Sentences, Estimates, ChildWindows, Sum;
    ChildrenProgress(DEFAULT, content);
  }

  lemma NoWindows(content: string)
    ensures Sentences(content) == [] ==> ChildWindows(DEFAULT, content) == []
  {
  }
}
