/** `re.split` on the patterns for paragraphs and sentences, as the places of the pieces between separators. */
module Splitting {
  import opened Text

  // The chunker's paragraphs and sentences, and the sentences the enforcer's checks look at.
  datatype Rule = Paragraph | Sentence | Statement
  datatype Span = Span(lo: nat, hi: nat)

  // The least length of a separator.
  function MinGap(rule: Rule): nat {
    if rule.Paragraph? then 2 else 1
  }

  /** Where a separator that starts at `i` ends; `i` itself when none starts there. */
  function SeparatorEnd(rule: Rule, t: string, i: nat): (j: nat)
    requires i < |t|
    ensures i <= j <= |t|
  {
    match rule
    case Paragraph =>  // \n\s*\n
      if t[i] != '\n' then i else
      var n := LastIndexOf(t, '\n', SkipSpace(t, i + 1));
      if i < n < SkipSpace(t, i + 1) then n + 1 else i
    case Statement =>  // (?<=[.!?])\s+
      if i > 0 && (t[i - 1] == '.' || t[i - 1] == '!' || t[i - 1] == '?') then SkipSpace(t, i) else i
    case Sentence =>  // (?<=[.\n])\s+
      if i > 0 && (t[i - 1] == '.' || t[i - 1] == '\n') then SkipSpace(t, i) else i
  }

  /** The pieces between separators: the current piece began at `lo`, the scan stands at `i`. */
  function Spans(rule: Rule, t: string, lo: nat, i: nat): seq<Span>
    requires lo <= i <= |t|
    decreases |t| - i
  {
    if i == |t| then [Span(lo, i)] else
    var j := SeparatorEnd(rule, t, i);
    if j > i then [Span(lo, i)] + Spans(rule, t, j, j) else Spans(rule, t, lo, i + 1)
  }

  predicate Within(t: string, s: Span) {
    s.lo <= s.hi <= |t|
  }

  predicate Blank(t: string, s: Span)
    requires Within(t, s)
  {
    AllSpace(t[s.lo..s.hi])
  }

  predicate AllWithin(t: string, spans: seq<Span>) {
    forall i :: 0 <= i < |spans| ==> Within(t, spans[i])
  }

  predicate AllVisible(t: string, spans: seq<Span>) {
    forall i :: 0 <= i < |spans| ==> Within(t, spans[i]) && !Blank(t, spans[i])
  }

  /** `[p for p in pieces if p.strip()]` */
  function NonBlank(t: string, spans: seq<Span>): seq<Span>
    requires AllWithin(t, spans)
  {
    if spans == [] then []
    else (if Blank(t, spans[0]) then [] else [spans[0]]) + NonBlank(t, spans[1..])
  }

  function Pieces(t: string, spans: seq<Span>): (ps: seq<string>)
    requires AllWithin(t, spans)
    ensures |ps| == |spans|
  {
    seq(|spans|, i requires 0 <= i < |spans| => t[spans[i].lo..spans[i].hi])
  }

  predicate SpaceBetween(t: string, a: nat, b: nat) {
    a <= b <= |t| && forall k :: a <= k < b ==> IsSpace(t[k])
  }

  /**
   * From `cur` on, the text is the spans in order with nothing but whitespace around them: at least
   * `first` characters before the first one and `gap` between neighbours.
   */
  predicate Tiles(t: string, cur: nat, first: nat, gap: nat, spans: seq<Span>)
    decreases |spans|
  {
    if spans == [] then SpaceBetween(t, cur, |t|)
    else
      && SpaceBetween(t, cur, spans[0].lo)
      && cur + first <= spans[0].lo
      && Within(t, spans[0])
      && Tiles(t, spans[0].hi, gap, gap, spans[1..])
  }

  // ---------------------------------------------------------------- the regex split tiles the text

  lemma SeparatorIsSpace(rule: Rule, t: string, i: nat)
    requires i < |t|
    ensures var j := SeparatorEnd(rule, t, i);
      SpaceBetween(t, i, j) && (i < j ==> i + MinGap(rule) <= j)
  {
    hide LastIndexOf;
    assert IsSpace('\n');
  }

  lemma TilesFrom(t: string, a: nat, b: nat, first: nat, first': nat, gap: nat, spans: seq<Span>)
    requires SpaceBetween(t, a, b) && Tiles(t, b, first, gap, spans) && a + first' <= b + first
    ensures Tiles(t, a, first', gap, spans)
  {
    hide IsSpace;
  }

  lemma {:induction false} SpansTile(rule: Rule, t: string, lo: nat, i: nat)
    requires lo <= i <= |t|
    ensures Tiles(t, lo, 0, MinGap(rule), Spans(rule, t, lo, i))
    decreases |t| - i
  {
    hide SeparatorEnd, MinGap;
    if i < |t| {
      var j := SeparatorEnd(rule, t, i);
      SeparatorIsSpace(rule, t, i);
      if j > i {
        SpansTile(rule, t, j, j);
        TilesFrom(t, i, j, 0, MinGap(rule), MinGap(rule), Spans(rule, t, j, j));
        assert ([Span(lo, i)] + Spans(rule, t, j, j))[1..] == Spans(rule, t, j, j);
      } else {
        SpansTile(rule, t, lo, i + 1);
      }
    }
  }

  lemma {:induction false} TilesWithin(t: string, cur: nat, first: nat, gap: nat, spans: seq<Span>)
    requires Tiles(t, cur, first, gap, spans)
    ensures AllWithin(t, spans)
    decreases |spans|
  {
    hide SpaceBetween;
    if spans != [] {
      TilesWithin(t, spans[0].hi, gap, gap, spans[1..]);
      assert forall i :: 1 <= i < |spans| ==> spans[i] == spans[1..][i - 1];
    }
  }

  lemma BlankIsSpace(t: string, s: Span)
    requires Within(t, s) && Blank(t, s)
    ensures SpaceBetween(t, s.lo, s.hi)
  {
    hide IsSpace;
    forall k | s.lo <= k < s.hi ensures IsSpace(t[k]) {
      assert t[s.lo..s.hi][k - s.lo] == t[k];
    }
  }

  lemma {:induction false} NonBlankTile(t: string, cur: nat, first: nat, gap: nat, spans: seq<Span>)
    requires Tiles(t, cur, first, gap, spans)
    ensures AllWithin(t, spans)
    ensures Tiles(t, cur, first, gap, NonBlank(t, spans))
    ensures AllVisible(t, NonBlank(t, spans))
    decreases |spans|
  {
    hide IsSpace, Blank;
    TilesWithin(t, cur, first, gap, spans);
    if spans != [] {
      var s, rest := spans[0], NonBlank(t, spans[1..]);
      NonBlankTile(t, s.hi, gap, gap, spans[1..]);
      if Blank(t, s) {
        BlankIsSpace(t, s);
        TilesFrom(t, cur, s.hi, gap, first, gap, rest);
        assert [] + rest == rest;
      } else {
        assert ([s] + rest)[1..] == rest;
      }
    }
  }

  /** The non-blank pieces of a text under a splitting rule, and where they are. */
  function PieceSpans(rule: Rule, t: string): (spans: seq<Span>)
    ensures Tiles(t, 0, 0, MinGap(rule), spans)
    ensures AllVisible(t, spans)
  {
    SpansTile(rule, t, 0, 0);
    NonBlankTile(t, 0, 0, MinGap(rule), Spans(rule, t, 0, 0));
    NonBlank(t, Spans(rule, t, 0, 0))
  }

  // ---------------------------------------------------------------- no word is lost or split

  /** The pieces hold exactly the words of the text, in order. */
  lemma {:induction false} TilesKeepWords(t: string, cur: nat, first: nat, gap: nat, spans: seq<Span>)
    requires Tiles(t, cur, first, gap, spans) && gap > 0
    ensures AllWithin(t, spans)
    ensures cur <= |t| && Words(t[cur..]) == AllWords(Pieces(t, spans))
    decreases |spans|
  {
    hide IsSpace, Words;
    TilesWithin(t, cur, first, gap, spans);
    if spans == [] {
      SliceIsSpace(t, cur, |t|);
      WordsOfSpace(t[cur..]);
    } else {
      var s := spans[0];
      TilesKeepWords(t, s.hi, gap, gap, spans[1..]);
      assert Pieces(t, spans)[1..] == Pieces(t, spans[1..]);
      SliceIsSpace(t, cur, s.lo);
      assert t[cur..] == t[cur..s.lo] + t[s.lo..];
      LeadingSpace(t[cur..s.lo], t[s.lo..]);
      assert t[s.lo..] == t[s.lo..s.hi] + t[s.hi..];
      NextIsSpace(t, s.hi, gap, spans[1..]);
      WordsThenSpace(t[s.lo..s.hi], t[s.hi..]);
    }
  }

  lemma SliceIsSpace(t: string, a: nat, b: nat)
    requires SpaceBetween(t, a, b)
    ensures AllSpace(t[a..b])
  {
    hide IsSpace;
  }

  lemma NextIsSpace(t: string, cur: nat, gap: nat, spans: seq<Span>)
    requires Tiles(t, cur, gap, gap, spans) && gap > 0 && cur <= |t|
    ensures t[cur..] == "" || IsSpace(t[cur..][0])
  {
    hide IsSpace;
  }

  // ---------------------------------------------------------------- finding the pieces again

  /** `text.find(piece, from)`, with `None` for -1. */
  function Find(t: string, piece: string, from: nat): Option<nat>
    decreases |t| - from
  {
    if from + |piece| > |t| then None
    else if t[from..from + |piece|] == piece then Some(from)
    else Find(t, piece, from + 1)
  }

  /** The recomputed offsets: each piece is searched for after the end of the one before it. */
  function Offsets(t: string, pieces: seq<string>, cursor: nat): (spans: seq<Span>)
    ensures |spans| == |pieces|
    decreases |pieces|
  {
    if pieces == [] then [] else
    var start := match Find(t, pieces[0], cursor) case Some(n) => n case None => cursor;
    [Span(start, start + |pieces[0]|)] + Offsets(t, pieces[1..], start + |pieces[0]|)
  }

  method LocateOffsets(t: string, pieces: seq<string>) returns (offsets: seq<Span>)
    ensures offsets == Offsets(t, pieces, 0)
  {
    hide Find;
    offsets := [];
    var cursor: nat := 0;
    for i := 0 to |pieces|
      invariant offsets + Offsets(t, pieces[i..], cursor) == Offsets(t, pieces, 0)
    {
      assert pieces[i..][1..] == pieces[i + 1..];
      var found := Find(t, pieces[i], cursor);
      var start := if found.None? then cursor else found.value;
      var end := start + |pieces[i]|;
      offsets := offsets + [Span(start, end)];
      cursor := end;
    }
  }

  lemma {:induction false} FindSkipsSpace(t: string, from: nat, s: Span)
    requires Within(t, s) && !Blank(t, s) && SpaceBetween(t, from, s.lo)
    ensures Find(t, t[s.lo..s.hi], from) == Some(s.lo)
    decreases s.lo - from
  {
    hide IsSpace;
    var piece := t[s.lo..s.hi];
    if from < s.lo {
      if t[from..from + |piece|] == piece {
        NoEarlierMatch(t, from, s);
      }
      FindSkipsSpace(t, from + 1, s);
    }
  }

  // The first visible character of the piece cannot fall into the whitespace before it.
  lemma NoEarlierMatch(t: string, from: nat, s: Span)
    requires Within(t, s) && !Blank(t, s) && SpaceBetween(t, from, s.lo) && from < s.lo
    ensures t[from..from + |t[s.lo..s.hi]|] != t[s.lo..s.hi]
  {
    var piece := t[s.lo..s.hi];
    var k := SkipSpace(piece, 0);
    hide IsSpace, SkipSpace;
    assert k < |piece|;
    assert t[s.lo + k] == piece[k];
    assert t[from..from + |piece|][k] == t[from + k];
    if from + k >= s.lo {
      assert piece[from + k - s.lo] == t[from + k];
    }
  }

  /** The search never misses: the recomputed offsets are the true places of the pieces. */
  lemma {:induction false} OffsetsExact(t: string, cur: nat, first: nat, gap: nat, spans: seq<Span>)
    requires Tiles(t, cur, first, gap, spans)
    requires AllVisible(t, spans)
    ensures Offsets(t, Pieces(t, spans), cur) == spans
    decreases |spans|
  {
    hide Find, Blank, SpaceBetween;
    if spans != [] {
      FindSkipsSpace(t, cur, spans[0]);
      assert Pieces(t, spans)[1..] == Pieces(t, spans[1..]);
      OffsetsExact(t, spans[0].hi, gap, gap, spans[1..]);
    }
  }
}
