/** The token bounds are reached: texts whose single chunk is estimated at exactly 13/10 of its budget. */
module ChunkerBounds {
  import opened Text
  import opened Splitting
  import opened Windows
  import opened Chunker
  import opened ChunkerTokens

  // ---------------------------------------------------------------- texts of one-word pieces

  // "a. a. a." for sentences, an `a` in each paragraph for paragraphs: three characters a piece.
  function Letter(rule: Rule, i: nat): char {
    if i % 3 == 0 then 'a'
    else if rule.Paragraph? then '\n'
    else if i % 3 == 1 then '.' else ' '
  }

  function Width(rule: Rule): nat {
    if rule.Paragraph? then 1 else 2
  }

  function OneWordText(rule: Rule, n: nat): (t: string)
    requires n > 0
    ensures |t| == 3 * (n - 1) + Width(rule)
    ensures forall i :: 0 <= i < |t| ==> t[i] == Letter(rule, i)
  {
    seq(3 * (n - 1) + Width(rule), i requires 0 <= i => Letter(rule, i))
  }

  function PieceAt(rule: Rule, k: nat): Span {
    Span(3 * k, 3 * k + Width(rule))
  }

  function PiecesFrom(rule: Rule, n: nat, k: nat): (spans: seq<Span>)
    requires k <= n
    ensures |spans| == n - k
  {
    seq(n - k, j requires 0 <= j < n - k => PieceAt(rule, k + j))
  }

  lemma LettersOf(rule: Rule, k: nat)
    requires !rule.Statement?
    ensures Letter(rule, 3 * k) == 'a'
    ensures Letter(rule, 3 * k + 1) == (if rule.Paragraph? then '\n' else '.')
    ensures Letter(rule, 3 * k + 2) == (if rule.Paragraph? then '\n' else ' ')
  {
    assert (3 * k) % 3 == 0 && (3 * k + 1) % 3 == 1 && (3 * k + 2) % 3 == 2;
  }

  lemma NoSeparatorInside(rule: Rule, n: nat, k: nat, i: nat)
    requires !rule.Statement? && k < n && 3 * k <= i < 3 * k + Width(rule)
    ensures SeparatorEnd(rule, OneWordText(rule, n), i) == i
  {
    LettersOf(rule, k);
    if k > 0 {
      LettersOf(rule, k - 1);
      assert 3 * (k - 1) + 2 == 3 * k - 1;
    }
    hide Letter, SkipSpace, LastIndexOf;
  }

  lemma SeparatorBetween(rule: Rule, n: nat, k: nat)
    requires !rule.Statement? && k + 1 < n
    ensures SeparatorEnd(rule, OneWordText(rule, n), 3 * k + Width(rule)) == 3 * k + 3
  {
    var t := OneWordText(rule, n);
    LettersOf(rule, k);
    LettersOf(rule, k + 1);
    assert 3 * (k + 1) == 3 * k + 3;
    assert !IsSpace('a') && IsSpace('\n') && IsSpace(' ');
    hide Letter, IsSpace;
    if rule.Paragraph? {
      SkipSpaceIs(t, 3 * k + 2, 3 * k + 3);
      assert LastIndexOf(t, '\n', 3 * k + 3) == 3 * k + 2;
    } else {
      SkipSpaceIs(t, 3 * k + 2, 3 * k + 3);
    }
  }

  lemma ScanPiece(rule: Rule, n: nat, k: nat)
    requires !rule.Statement? && k < n
    ensures var t := OneWordText(rule, n);
      Spans(rule, t, 3 * k, 3 * k) == Spans(rule, t, 3 * k, 3 * k + Width(rule))
  {
    NoSeparatorInside(rule, n, k, 3 * k);
    if rule.Sentence? {
      NoSeparatorInside(rule, n, k, 3 * k + 1);
    }
    hide SeparatorEnd, Letter;
  }

  lemma UnfoldSpans(rule: Rule, t: string, lo: nat, i: nat)
    requires lo <= i <= |t|
    ensures Spans(rule, t, lo, i) ==
      if i == |t| then [Span(lo, i)]
      else if SeparatorEnd(rule, t, i) > i then
        [Span(lo, i)] + Spans(rule, t, SeparatorEnd(rule, t, i), SeparatorEnd(rule, t, i))
      else Spans(rule, t, lo, i + 1)
  {
    hide SeparatorEnd;
  }

  lemma NextPiece(rule: Rule, n: nat, k: nat)
    requires !rule.Statement? && k < n
    ensures var t := OneWordText(rule, n);
      Spans(rule, t, 3 * k, 3 * k)
        == [PieceAt(rule, k)] + if k + 1 < n then Spans(rule, t, 3 * (k + 1), 3 * (k + 1)) else []
  {
    hide Spans, SeparatorEnd, Letter, OneWordText;
    var t := OneWordText(rule, n);
    ScanPiece(rule, n, k);
    UnfoldSpans(rule, t, 3 * k, 3 * k + Width(rule));
    if k + 1 < n {
      SeparatorBetween(rule, n, k);
    } else {
      assert [PieceAt(rule, k)] + [] == [PieceAt(rule, k)];
    }
  }

  lemma PiecesFromCons(rule: Rule, n: nat, k: nat)
    requires k < n
    ensures PiecesFrom(rule, n, k) == [PieceAt(rule, k)] + PiecesFrom(rule, n, k + 1)
  {
    hide PieceAt;
  }

  lemma {:induction false} SpansOfOneWords(rule: Rule, n: nat, k: nat)
    requires !rule.Statement? && k < n
    ensures Spans(rule, OneWordText(rule, n), 3 * k, 3 * k) == PiecesFrom(rule, n, k)
    decreases n - k
  {
    hide *;
    NextPiece(rule, n, k);
    PiecesFromCons(rule, n, k);
    if k + 1 < n {
      SpansOfOneWords(rule, n, k + 1);
    } else {
      assert |PiecesFrom(rule, n, k + 1)| == 0;
    }
  }

  lemma {:induction false} NothingBlank(t: string, spans: seq<Span>)
    requires AllWithin(t, spans) && AllVisible(t, spans)
    ensures NonBlank(t, spans) == spans
  {
    hide Blank;
    if spans != [] {
      NothingBlank(t, spans[1..]);
      assert !Blank(t, spans[0]);
    }
  }

  lemma PieceIsWord(rule: Rule, n: nat, k: nat)
    requires !rule.Statement? && k < n
    ensures var t, s := OneWordText(rule, n), PieceAt(rule, k);
      && Within(t, s) && !Blank(t, s) && |Words(t[s.lo..s.hi])| == 1
  {
    LettersOf(rule, k);
    var t, s := OneWordText(rule, n), PieceAt(rule, k);
    var piece := t[s.lo..s.hi];
    assert piece[0] == 'a' && (|piece| == 2 ==> piece[1] == '.');
    assert !IsSpace('a') && !IsSpace('.');
    OneWord(piece);
  }

  lemma OneWord(w: string)
    requires w != "" && forall i :: 0 <= i < |w| ==> !IsSpace(w[i])
    ensures |Words(w)| == 1 && !AllSpace(w)
  {
    hide IsSpace;
    assert SkipWord(w, 0) == |w|;
    assert w[|w|..] == "";
  }

  /** The text has just these pieces, one word each. */
  lemma PiecesOfOneWords(rule: Rule, n: nat)
    requires !rule.Statement? && n > 0
    ensures var t := OneWordText(rule, n); var ps := Pieces(t, PieceSpans(rule, t));
      |ps| == n && forall k :: 0 <= k < n ==> |Words(ps[k])| == 1
  {
    hide Words, OneWordText, Spans, Blank, NonBlank, Width;
    var t, spans := OneWordText(rule, n), PiecesFrom(rule, n, 0);
    SpansOfOneWords(rule, n, 0);
    forall k | 0 <= k < n
      ensures Within(t, spans[k]) && !Blank(t, spans[k]) && |Words(t[spans[k].lo..spans[k].hi])| == 1
    {
      PieceIsWord(rule, n, k);
    }
    NothingBlank(t, spans);
    assert PieceSpans(rule, t) == spans;
  }

  // ---------------------------------------------------------------- one window of exactly the budget

  lemma OneFullWindow(pieces: seq<string>, budget: nat)
    requires |pieces| == budget > 0 && forall k :: 0 <= k < budget ==> |Words(pieces[k])| == 1
    ensures WindowEnd(Estimates(pieces), 0, 1, budget) == budget
  {
    hide Words, WindowEnd, Estimates;
    CountOneWord(pieces, 0, budget);
    SingleFits(Estimates(pieces), 0, budget);
    WindowEndExact(Estimates(pieces), 0, 1, budget, budget);
  }

  /** A section of as many one-word paragraphs as the budget has tokens becomes one parent, estimated at the bound. */
  lemma ParentReachesBound(cfg: Config, sectionOffset: nat)
    requires cfg.parentMaxTokens > 0
    ensures var parents := ParentChunks(cfg, OneWordText(Paragraph, cfg.parentMaxTokens), sectionOffset);
      |parents| == 1 && parents[0].tokenEstimate == 13 * cfg.parentMaxTokens / 10
  {
    var n := cfg.parentMaxTokens;
    var ps := Paragraphs(OneWordText(Paragraph, n));
    PiecesOfOneWords(Paragraph, n);
    hide Words, OneWordText, PieceSpans, Pieces, WindowEnd, Offsets, TokenEstimate, Join, AllSpace;
    OneFullWindow(ps, n);
    assert Groups(Estimates(ps), 0, n) == [Span(0, n)];
    NewlinesAreSpace();
    OneWordPieces("\n\n", ps, 0, n);
  }

  /** And a parent of as many one-word sentences as the child budget becomes one child, estimated at the bound. */
  lemma ChildReachesBound(cfg: Config, parent: Chunk)
    requires cfg.childMaxTokens > 0 && parent.content == OneWordText(Sentence, cfg.childMaxTokens)
    ensures var children := ChildChunks(cfg, parent);
      |children| == 1 && children[0].tokenEstimate == 13 * cfg.childMaxTokens / 10
  {
    var n := cfg.childMaxTokens;
    var ps := Sentences(parent.content);
    PiecesOfOneWords(Sentence, n);
    hide Words, OneWordText, PieceSpans, Pieces, WindowEnd, NextStart, Offsets, TokenEstimate, Join, AllSpace;
    OneFullWindow(ps, n);
    assert WindowsFrom(Estimates(ps), 0, n, cfg.childOverlapTokens) == [Span(0, n)];
    NewlinesAreSpace();
    OneWordPieces(" ", ps, 0, n);
  }

  /** With the defaults: a parent of 2600 tokens by its own estimate, and a child of 260. */
  lemma DefaultBoundsReached(parent: Chunk)
    requires parent.content == OneWordText(Sentence, 200)
    ensures ParentChunks(DEFAULT, OneWordText(Paragraph, 2000), 0) != []
    ensures ParentChunks(DEFAULT, OneWordText(Paragraph, 2000), 0)[0].tokenEstimate == 2600
    ensures ChildChunks(DEFAULT, parent) != [] && ChildChunks(DEFAULT, parent)[0].tokenEstimate == 260
  {
    hide ParentChunks, ChildChunks, OneWordText;
    ParentReachesBound(DEFAULT, 0);
    ChildReachesBound(DEFAULT, parent);
  }
}
