/** What `re.split` on the three patterns cuts, said of the characters of the text alone. */
module SplitLaws {
  import opened Text
  import opened Splitting

  // The characters a sentence ends with: for the chunker, and for the enforcer's checks.
  predicate EndsSentence(rule: Rule, c: char) {
    match rule
    case Sentence => c in ".\n"
    case Statement => c in ".!?"
    case Paragraph => false
  }

  predicate Spaces(t: string, a: int, b: int) {
    0 <= a <= b <= |t| && AllSpace(t[a..b])
  }

  /**
   * The text from `a` to `b` is a separator. Between sentences: all the whitespace behind a character that ends
   * one. Between paragraphs: a newline, whitespace, and the last newline before anything visible.
   */
  ghost predicate IsSeparator(rule: Rule, t: string, a: int, b: int) {
    && Spaces(t, a, b)
    && if rule.Paragraph? then
         && a + 2 <= b && t[a] == '\n' && t[b - 1] == '\n'
         && forall j :: b <= j < |t| && Spaces(t, b, j) ==> t[j] != '\n'
       else
         && 0 < a < b && EndsSentence(rule, t[a - 1])
         && (b == |t| || !IsSpace(t[b]))
  }

  ghost predicate StartsSeparator(rule: Rule, t: string, a: int) {
    exists b :: IsSeparator(rule, t, a, b)
  }

  /**
   * The spans are the pieces of the text from `lo` on: the first goes up to the first place a separator starts
   * at, or to the end of the text, and the next one starts where that separator ends.
   */
  ghost predicate IsSplit(rule: Rule, t: string, lo: int, spans: seq<Span>)
    decreases |spans|
  {
    && spans != []
    && spans[0].lo == lo <= spans[0].hi <= |t|
    && (forall a :: lo <= a < spans[0].hi ==> !StartsSeparator(rule, t, a))
    && if |spans| == 1 then spans[0].hi == |t|
       else IsSeparator(rule, t, spans[0].hi, spans[1].lo) && IsSplit(rule, t, spans[1].lo, spans[1..])
  }

  // ---------------------------------------------------------------- separators

  lemma SpacesMean(t: string, a: int, b: int)
    requires 0 <= a <= b <= |t|
    ensures Spaces(t, a, b) <==> forall k :: a <= k < b ==> IsSpace(t[k])
  {
    hide IsSpace;
    assert forall k :: a <= k < b ==> t[a..b][k - a] == t[k];
  }

  /** A separator is determined by where it starts. */
  lemma SeparatorUnique(rule: Rule, t: string, a: int, b: int, b': int)
    requires IsSeparator(rule, t, a, b) && IsSeparator(rule, t, a, b')
    ensures b == b'
  {
    SpacesMean(t, a, b);
    SpacesMean(t, a, b');
    hide IsSpace;
    var lo, hi := Min(b, b'), Max(b, b');
    if lo < hi {
      if rule.Paragraph? {
        SpacesMean(t, lo, hi - 1);
      }
    }
  }

  lemma NewlineIsSpace()
    ensures IsSpace('\n')
  {
  }

  lemma ParagraphSeparator(t: string, i: nat)
    requires i < |t|
    ensures var j := SeparatorEnd(Paragraph, t, i);
      if j > i then IsSeparator(Paragraph, t, i, j) else !StartsSeparator(Paragraph, t, i)
  {
    NewlineIsSpace();
    hide IsSpace;
    var j := SeparatorEnd(Paragraph, t, i);
    if j > i {
      SpacesMean(t, i, j);
      var e := SkipSpace(t, i + 1);
      forall k | j <= k < |t| && Spaces(t, j, k) ensures t[k] != '\n' {
        SpacesMean(t, j, k);
        assert k <= e;
      }
    } else if StartsSeparator(Paragraph, t, i) {
      var b :| IsSeparator(Paragraph, t, i, b);
      SpacesMean(t, i, b);
    }
  }

  lemma SentenceSeparator(rule: Rule, t: string, i: nat)
    requires i < |t| && !rule.Paragraph?
    ensures var j := SeparatorEnd(rule, t, i);
      if j > i then IsSeparator(rule, t, i, j) else !StartsSeparator(rule, t, i)
  {
    hide IsSpace;
    var j := SeparatorEnd(rule, t, i);
    if j > i {
      SpacesMean(t, i, j);
    } else if StartsSeparator(rule, t, i) {
      var b :| IsSeparator(rule, t, i, b);
      SpacesMean(t, i, b);
    }
  }

  /** The scan finds a separator exactly where one starts, and its end. */
  lemma SeparatorExact(rule: Rule, t: string, i: nat)
    requires i < |t|
    ensures var j := SeparatorEnd(rule, t, i);
      if j > i then IsSeparator(rule, t, i, j) else !StartsSeparator(rule, t, i)
  {
    hide *;
    if rule == Paragraph {
      ParagraphSeparator(t, i);
    } else {
      SentenceSeparator(rule, t, i);
    }
  }

  // ---------------------------------------------------------------- the split

  lemma LastPiece(rule: Rule, t: string, lo: nat)
    requires lo <= |t| && forall a :: lo <= a < |t| ==> !StartsSeparator(rule, t, a)
    ensures IsSplit(rule, t, lo, [Span(lo, |t|)])
  {
    hide StartsSeparator;
  }

  lemma PieceBefore(rule: Rule, t: string, lo: nat, i: nat, j: nat, rest: seq<Span>)
    requires lo <= i < |t| && (forall a :: lo <= a < i ==> !StartsSeparator(rule, t, a))
    requires IsSeparator(rule, t, i, j) && IsSplit(rule, t, j, rest)
    ensures IsSplit(rule, t, lo, [Span(lo, i)] + rest)
  {
    hide StartsSeparator, IsSeparator;
    assert ([Span(lo, i)] + rest)[1..] == rest;
  }

  lemma {:induction false} SpansSplit(rule: Rule, t: string, lo: nat, i: nat)
    requires lo <= i <= |t| && forall a :: lo <= a < i ==> !StartsSeparator(rule, t, a)
    ensures IsSplit(rule, t, lo, Spans(rule, t, lo, i))
    decreases |t| - i
  {
    hide StartsSeparator, IsSeparator, IsSplit, SeparatorEnd;
    if i == |t| {
      LastPiece(rule, t, lo);
    } else {
      var j := SeparatorEnd(rule, t, i);
      SeparatorExact(rule, t, i);
      if j > i {
        SpansSplit(rule, t, j, j);
        PieceBefore(rule, t, lo, i, j, Spans(rule, t, j, j));
      } else {
        SpansSplit(rule, t, lo, i + 1);
      }
    }
  }

  /** The scan cuts a text into its pieces. */
  lemma SplitExact(rule: Rule, t: string)
    ensures IsSplit(rule, t, 0, Spans(rule, t, 0, 0))
  {
    hide IsSplit, Spans, StartsSeparator;
    SpansSplit(rule, t, 0, 0);
  }

  lemma SplitMeans(rule: Rule, t: string, lo: int, spans: seq<Span>)
    requires IsSplit(rule, t, lo, spans)
    ensures spans != [] && spans[0].lo == lo <= spans[0].hi <= |t|
    ensures forall a :: lo <= a < spans[0].hi ==> !StartsSeparator(rule, t, a)
    ensures |spans| == 1 ==> spans[0].hi == |t|
    ensures |spans| > 1 ==>
      IsSeparator(rule, t, spans[0].hi, spans[1].lo) && IsSplit(rule, t, spans[1].lo, spans[1..])
  {
    hide StartsSeparator, IsSeparator;
  }

  lemma SeparatorStarts(rule: Rule, t: string, a: int, b: int)
    requires IsSeparator(rule, t, a, b)
    ensures StartsSeparator(rule, t, a) && a < |t|
  {
  }

  /** A first separator decides the first piece and the start of the second. */
  lemma FirstPiece(rule: Rule, t: string, lo: int, spans: seq<Span>, h: int, l: int)
    requires IsSplit(rule, t, lo, spans) && lo <= h
    requires IsSeparator(rule, t, h, l) && forall a :: lo <= a < h ==> !StartsSeparator(rule, t, a)
    ensures |spans| > 1 && spans[0] == Span(lo, h) && spans[1].lo == l && IsSplit(rule, t, l, spans[1..])
  {
    hide *;
    SplitMeans(rule, t, lo, spans);
    SeparatorStarts(rule, t, h, l);
    if |spans| > 1 {
      SeparatorStarts(rule, t, spans[0].hi, spans[1].lo);
      assert spans[0].hi == h;
      SeparatorUnique(rule, t, h, l, spans[1].lo);
    }
  }

  /** And there is no other way to cut it. */
  lemma {:induction false} SplitUnique(rule: Rule, t: string, lo: int, a: seq<Span>, b: seq<Span>)
    requires IsSplit(rule, t, lo, a) && IsSplit(rule, t, lo, b)
    ensures a == b
    decreases |a|
  {
    hide *;
    SplitMeans(rule, t, lo, a);
    SplitMeans(rule, t, lo, b);
    if |a| > 1 {
      FirstPiece(rule, t, lo, b, a[0].hi, a[1].lo);
      SplitUnique(rule, t, a[1].lo, a[1..], b[1..]);
      assert a == [a[0]] + a[1..] && b == [b[0]] + b[1..];
    } else if |b| > 1 {
      FirstPiece(rule, t, lo, a, b[0].hi, b[1].lo);
    } else {
      assert a == [a[0]] && b == [b[0]];
    }
  }

  // ---------------------------------------------------------------- the pieces kept

  /** The visible ones among the pieces, and no others, in their order. */
  lemma {:induction false} NonBlankKeeps(t: string, spans: seq<Span>)
    requires AllWithin(t, spans)
    ensures forall s :: s in NonBlank(t, spans) <==> s in spans && exists k :: s.lo <= k < s.hi && !IsSpace(t[k])
  {
    hide IsSpace;
    if spans != [] {
      assert spans == [spans[0]] + spans[1..];
      NonBlankKeeps(t, spans[1..]);
      BlankMeans(t, spans[0]);
    }
  }

  lemma BlankMeans(t: string, s: Span)
    requires Within(t, s)
    ensures Blank(t, s) <==> forall k :: s.lo <= k < s.hi ==> IsSpace(t[k])
  {
    hide IsSpace;
    assert forall k :: s.lo <= k < s.hi ==> t[s.lo..s.hi][k - s.lo] == t[k];
  }

  /** The pieces the chunker works on are the visible pieces of the one split there is. */
  lemma PieceSpansExact(rule: Rule, t: string, spans: seq<Span>, s: Span)
    requires IsSplit(rule, t, 0, spans)
    ensures s in PieceSpans(rule, t) <==> s in spans && exists k :: s.lo <= k < s.hi && k < |t| && !IsSpace(t[k])
  {
    hide IsSplit, Spans, IsSpace, NonBlank, Tiles;
    SplitExact(rule, t);
    SplitUnique(rule, t, 0, spans, Spans(rule, t, 0, 0));
    SpansTile(rule, t, 0, 0);
    TilesWithin(t, 0, 0, MinGap(rule), spans);
    NonBlankKeeps(t, spans);
  }

  // ---------------------------------------------------------------- what the pieces look like

  /** Inside a piece no separator starts, what stands between two pieces is one, and so on to the end. */
  lemma {:induction false} SplitGaps(rule: Rule, t: string, lo: int, spans: seq<Span>, i: nat)
    requires IsSplit(rule, t, lo, spans) && i < |spans|
    ensures Within(t, spans[i])
    ensures forall a :: spans[i].lo <= a < spans[i].hi ==> !StartsSeparator(rule, t, a)
    ensures i + 1 < |spans| ==> IsSeparator(rule, t, spans[i].hi, spans[i + 1].lo)
    ensures i + 1 == |spans| ==> spans[i].hi == |t|
    decreases i
  {
    hide *;
    SplitMeans(rule, t, lo, spans);
    if i == 0 {
      FirstWithin(rule, t, lo, spans);
    } else {
      assert spans[1..][i - 1] == spans[i];
      assert i + 1 < |spans| ==> spans[1..][i] == spans[i + 1];
      SplitGaps(rule, t, spans[1].lo, spans[1..], i - 1);
    }
  }

  lemma FirstWithin(rule: Rule, t: string, lo: int, spans: seq<Span>)
    requires IsSplit(rule, t, lo, spans)
    ensures spans != [] && Within(t, spans[0])
  {
    hide StartsSeparator, IsSeparator;
  }

  lemma WhitespaceBehindMark(rule: Rule, t: string, a: int)
    requires !rule.Paragraph? && 0 < a < |t| && EndsSentence(rule, t[a - 1]) && IsSpace(t[a])
    ensures StartsSeparator(rule, t, a)
  {
    hide EndsSentence, IsSpace;
    var b := SkipSpace(t, a);
    SpacesMean(t, a, b);
    assert IsSeparator(rule, t, a, b);
  }

  /** No whitespace inside a sentence stands right behind a character that ends one. */
  lemma SentenceHasNoBreak(rule: Rule, t: string, spans: seq<Span>, i: nat, k: int)
    requires !rule.Paragraph? && IsSplit(rule, t, 0, spans) && i < |spans|
    requires spans[i].lo <= k < spans[i].hi && 0 < k < |t| && IsSpace(t[k])
    ensures !EndsSentence(rule, t[k - 1])
  {
    hide *;
    SplitGaps(rule, t, 0, spans, i);
    if EndsSentence(rule, t[k - 1]) {
      WhitespaceBehindMark(rule, t, k);
    }
  }

  /** No paragraph holds two newlines with nothing visible between them. */
  lemma ParagraphHasNoBreak(t: string, spans: seq<Span>, i: nat, a: int, b: int)
    requires IsSplit(Paragraph, t, 0, spans) && i < |spans|
    requires spans[i].lo <= a < b < spans[i].hi <= |t| && t[a] == '\n' && t[b] == '\n'
    ensures exists k :: a < k < b && !IsSpace(t[k])
  {
    hide *;
    SplitGaps(Paragraph, t, 0, spans, i);
    if forall k :: a < k < b ==> IsSpace(t[k]) {
      NewlinesSeparate(t, a, b);
    }
  }

  lemma NewlinesSeparate(t: string, a: nat, b: nat)
    requires a < b < |t| && t[a] == '\n' && t[b] == '\n' && forall k :: a < k < b ==> IsSpace(t[k])
    ensures StartsSeparator(Paragraph, t, a)
  {
    NewlineIsSpace();
    hide IsSpace;
    var e := SkipSpace(t, a);
    var n := LastIndexOf(t, '\n', e);
    assert e > b && b <= n < e;
    SpacesMean(t, a, n + 1);
    forall j | n + 1 <= j < |t| && Spaces(t, n + 1, j) ensures t[j] != '\n' {
      SpacesMean(t, n + 1, j);
      assert j <= e;
    }
    assert IsSeparator(Paragraph, t, a, n + 1);
  }

  // ---------------------------------------------------------------- one piece after the other

  /** The pieces of a text, as strings. */
  function SplitText(rule: Rule, t: string): seq<string> {
    SpansTile(rule, t, 0, 0);
    TilesWithin(t, 0, 0, MinGap(rule), Spans(rule, t, 0, 0));
    Pieces(t, Spans(rule, t, 0, 0))
  }

  function Shift(spans: seq<Span>, n: nat): (shifted: seq<Span>)
    ensures |shifted| == |spans|
  {
    seq(|spans|, i requires 0 <= i < |spans| => Span(spans[i].lo + n, spans[i].hi + n))
  }

  lemma SpacesShift(t: string, n: nat, a: int, b: int)
    requires n <= |t| && 0 <= a
    ensures Spaces(t[n..], a, b) <==> Spaces(t, n + a, n + b)
  {
    hide AllSpace;
    if a <= b <= |t| - n {
      assert t[n..][a..b] == t[n + a..n + b];
    }
  }

  lemma ParagraphShift(t: string, n: nat, a: int, b: int)
    requires n <= |t| && 0 <= a
    ensures IsSeparator(Paragraph, t[n..], a, b) <==> IsSeparator(Paragraph, t, n + a, n + b)
  {
    hide Spaces;
    var rest := t[n..];
    assert forall k :: 0 <= k < |rest| ==> rest[k] == t[n + k];
    SpacesShift(t, n, a, b);
    SpacesBounds(t[n..], a, b);
    SpacesBounds(t, n + a, n + b);
    if Spaces(rest, a, b) {
      forall j | b <= j < |rest| ensures Spaces(rest, b, j) <==> Spaces(t, n + b, n + j) {
        SpacesShift(t, n, b, j);
      }
      if IsSeparator(Paragraph, rest, a, b) {
        forall j | n + b <= j < |t| && Spaces(t, n + b, j) ensures t[j] != '\n' {
          assert Spaces(rest, b, j - n) && rest[j - n] == t[j];
        }
      }
      if IsSeparator(Paragraph, t, n + a, n + b) {
        forall j | b <= j < |rest| && Spaces(rest, b, j) ensures rest[j] != '\n' {
          assert Spaces(t, n + b, n + j);
        }
      }
    }
  }

  lemma SpacesBounds(t: string, a: int, b: int)
    ensures Spaces(t, a, b) ==> 0 <= a <= b <= |t|
  {
  }

  /** A separator behind the first visible character of a rest is one of the rest alone. */
  lemma SeparatorShift(rule: Rule, t: string, n: nat, a: int, b: int)
    requires n < |t| && !IsSpace(t[n]) && 0 <= a
    ensures IsSeparator(rule, t[n..], a, b) <==> IsSeparator(rule, t, n + a, n + b)
  {
    if rule.Paragraph? {
      hide *;
      ParagraphShift(t, n, a, b);
    } else {
      var rest := t[n..];
      assert forall k :: 0 <= k < |rest| ==> rest[k] == t[n + k];
      SpacesShift(t, n, a, b);
      hide IsSpace, EndsSentence, Spaces;
      SpacesBounds(rest, a, b);
      SpacesBounds(t, n + a, n + b);
      if a == 0 && IsSeparator(rule, t, n + a, n + b) {
        SpacesMean(t, n, n + b);
        assert false;
      }
    }
  }

  lemma StartsShift(rule: Rule, t: string, n: nat, a: int)
    requires n < |t| && !IsSpace(t[n]) && 0 <= a
    ensures StartsSeparator(rule, t[n..], a) <==> StartsSeparator(rule, t, n + a)
  {
    hide IsSeparator, IsSpace;
    if b :| IsSeparator(rule, t[n..], a, b) {
      SeparatorShift(rule, t, n, a, b);
    }
    var a' := n + a;
    if b :| IsSeparator(rule, t, a', b) {
      SeparatorShift(rule, t, n, a, b - n);
    }
  }

  lemma SplitIs(rule: Rule, t: string, lo: int, spans: seq<Span>)
    requires spans != [] && spans[0].lo == lo <= spans[0].hi <= |t|
    requires forall a :: lo <= a < spans[0].hi ==> !StartsSeparator(rule, t, a)
    requires |spans| == 1 ==> spans[0].hi == |t|
    requires |spans| > 1 ==>
      IsSeparator(rule, t, spans[0].hi, spans[1].lo) && IsSplit(rule, t, spans[1].lo, spans[1..])
    ensures IsSplit(rule, t, lo, spans)
  {
    hide StartsSeparator, IsSeparator;
  }

  lemma {:induction false} SplitShift(rule: Rule, t: string, n: nat, lo: nat, spans: seq<Span>)
    requires n < |t| && !IsSpace(t[n]) && IsSplit(rule, t[n..], lo, spans)
    ensures IsSplit(rule, t, n + lo, Shift(spans, n))
    decreases |spans|
  {
    hide *;
    SplitMeans(rule, t[n..], lo, spans);
    forall a | n + lo <= a < n + spans[0].hi ensures !StartsSeparator(rule, t, a) {
      StartsShift(rule, t, n, a - n);
    }
    ShiftFirst(spans, n);
    if |spans| > 1 {
      SeparatorShift(rule, t, n, spans[0].hi, spans[1].lo);
      SplitShift(rule, t, n, spans[1].lo, spans[1..]);
    }
    SplitIs(rule, t, n + lo, Shift(spans, n));
  }

  lemma ShiftFirst(spans: seq<Span>, n: nat)
    requires spans != []
    ensures Shift(spans, n)[0] == Span(spans[0].lo + n, spans[0].hi + n)
    ensures |spans| > 1 ==> Shift(spans, n)[1].lo == spans[1].lo + n
    ensures Shift(spans[1..], n) == Shift(spans, n)[1..]
  {
  }

  lemma PiecesShift(t: string, n: nat, spans: seq<Span>)
    requires n <= |t| && AllWithin(t[n..], spans)
    ensures AllWithin(t, Shift(spans, n)) && Pieces(t, Shift(spans, n)) == Pieces(t[n..], spans)
  {
    forall i | 0 <= i < |spans|
      ensures Within(t, Shift(spans, n)[i]) && t[n..][spans[i].lo..spans[i].hi] == t[spans[i].lo + n..spans[i].hi + n]
    {
      assert Within(t[n..], spans[i]);
    }
  }

  lemma OneSplitText(rule: Rule, t: string, spans: seq<Span>)
    requires IsSplit(rule, t, 0, spans)
    ensures AllWithin(t, spans) && SplitText(rule, t) == Pieces(t, spans)
  {
    hide IsSplit, Spans, Tiles, Within;
    SplitExact(rule, t);
    SplitUnique(rule, t, 0, spans, Spans(rule, t, 0, 0));
    SpansTile(rule, t, 0, 0);
    TilesWithin(t, 0, 0, MinGap(rule), spans);
  }

  lemma NothingIsOnePiece(rule: Rule)
    ensures SplitText(rule, "") == [""]
  {
    hide *;
    LastPiece(rule, "", 0);
    OneSplitText(rule, "", [Span(0, 0)]);
    PiecesOne("");
  }

  lemma PiecesOne(t: string)
    ensures AllWithin(t, [Span(0, |t|)]) && Pieces(t, [Span(0, |t|)]) == [t]
  {
    assert t[0..|t|] == t;
  }

  /** The rest of a text behind a separator is split as it would be alone. */
  lemma SplitAfter(rule: Rule, t: string, h: nat, l: nat)
    requires h <= l <= |t| && IsSeparator(rule, t, h, l) && forall a :: 0 <= a < h ==> !StartsSeparator(rule, t, a)
    requires l < |t| ==> !IsSpace(t[l])
    ensures SplitText(rule, t) == [t[..h]] + SplitText(rule, t[l..])
  {
    hide *;
    var rest := t[l..];
    var spans := Spans(rule, rest, 0, 0);
    SplitExact(rule, rest);
    OneSplitText(rule, rest, spans);
    PiecesShift(t, l, spans);
    if l < |t| {
      SplitShift(rule, t, l, 0, spans);
    } else {
      NothingIsOnePiece(rule);
      LastPiece(rule, "", 0);
      SplitUnique(rule, "", 0, spans, [Span(0, 0)]);
      assert Shift(spans, l) == [Span(l, l)] by { ShiftFirst(spans, l); }
      LastPiece(rule, t, l);
    }
    SeparatorStarts(rule, t, h, l);
    PieceBefore(rule, t, 0, h, l, Shift(spans, l));
    OneSplitText(rule, t, [Span(0, h)] + Shift(spans, l));
    PiecesCons(t, h, Shift(spans, l));
  }

  lemma PiecesCons(t: string, h: nat, spans: seq<Span>)
    requires h <= |t| && AllWithin(t, spans)
    ensures AllWithin(t, [Span(0, h)] + spans)
    ensures Pieces(t, [Span(0, h)] + spans) == [t[..h]] + Pieces(t, spans)
  {
    var all := [Span(0, h)] + spans;
    forall i | 0 <= i < |all| ensures Within(t, all[i]) {
      assert i > 0 ==> all[i] == spans[i - 1];
    }
    assert t[0..h] == t[..h];
  }

  /** Without whitespace right behind a character that ends a sentence. */
  predicate NoBreak(rule: Rule, s: string) {
    forall k :: 0 < k < |s| && IsSpace(s[k]) ==> !EndsSentence(rule, s[k - 1])
  }

  lemma NoBreakStarts(rule: Rule, s: string, more: string, a: int)
    requires !rule.Paragraph? && NoBreak(rule, s) && a < |s|
    ensures !StartsSeparator(rule, s + more, a)
  {
    hide IsSpace, EndsSentence;
    var t := s + more;
    if b :| IsSeparator(rule, t, a, b) {
      SpacesMean(t, a, b);
      assert IsSpace(t[a]);
    }
  }

  /** A text without a break is one sentence. */
  lemma OneSentence(rule: Rule, s: string)
    requires !rule.Paragraph? && NoBreak(rule, s)
    ensures SplitText(rule, s) == [s]
  {
    hide *;
    assert s + "" == s;
    forall a | 0 <= a < |s| ensures !StartsSeparator(rule, s, a) {
      NoBreakStarts(rule, s, "", a);
    }
    LastPiece(rule, s, 0);
    OneSplitText(rule, s, [Span(0, |s|)]);
    PiecesOne(s);
  }

  /** A whole sentence, whitespace, and more: the sentence is the first piece, the others are those of the rest. */
  lemma SentenceFirst(rule: Rule, s: string, gap: string, rest: string)
    requires !rule.Paragraph? && s != "" && NoBreak(rule, s) && EndsSentence(rule, s[|s| - 1])
    requires gap != "" && AllSpace(gap) && (rest == "" || !IsSpace(rest[0]))
    ensures SplitText(rule, s + gap + rest) == [s] + SplitText(rule, rest)
  {
    hide SplitText, IsSpace, EndsSentence, NoBreak, StartsSeparator, Spaces;
    var t := s + gap + rest;
    var l := |s| + |gap|;
    assert t == s + (gap + rest);
    forall a | 0 <= a < |s| ensures !StartsSeparator(rule, t, a) {
      NoBreakStarts(rule, s, gap + rest, a);
    }
    assert t[|s|..l] == gap && t[l..] == rest && t[..|s|] == s;
    SpacesAre(t, |s|, l);
    assert IsSeparator(rule, t, |s|, l);
    hide *;
    SplitAfter(rule, t, |s|, l);
  }

  lemma SpacesAre(t: string, a: nat, b: nat)
    requires a <= b <= |t| && AllSpace(t[a..b])
    ensures Spaces(t, a, b)
  {
  }

  /** Sentences one after the other: visible at the start, and all but the last complete. */
  predicate AreSentences(rule: Rule, ss: seq<string>) {
    && (forall i :: 0 <= i < |ss| ==> ss[i] != "" && !IsSpace(ss[i][0]) && NoBreak(rule, ss[i]))
    && forall i :: 0 <= i < |ss| - 1 ==> ss[i] != "" && EndsSentence(rule, ss[i][|ss[i]| - 1])
  }

  lemma SentencesMean(rule: Rule, ss: seq<string>)
    requires AreSentences(rule, ss) && ss != []
    ensures ss[0] != "" && !IsSpace(ss[0][0]) && NoBreak(rule, ss[0]) && AreSentences(rule, ss[1..])
    ensures |ss| > 1 ==> EndsSentence(rule, ss[0][|ss[0]| - 1])
  {
    hide IsSpace, EndsSentence, NoBreak;
  }

  lemma JoinStart(sep: string, ss: seq<string>)
    requires ss != [] && ss[0] != ""
    ensures Join(sep, ss) != "" && Join(sep, ss)[0] == ss[0][0]
    ensures |ss| > 1 ==> Join(sep, ss) == ss[0] + sep + Join(sep, ss[1..])
    ensures |ss| == 1 ==> Join(sep, ss) == ss[0]
  {
    hide Join;
    UnfoldJoin(sep, ss);
  }

  lemma UnfoldJoin(sep: string, ss: seq<string>)
    requires ss != []
    ensures Join(sep, ss) == if |ss| == 1 then ss[0] else ss[0] + sep + Join(sep, ss[1..])
  {
  }

  /** Sentences with whitespace between them are split into just these sentences. */
  lemma {:induction false} SentencesSplit(rule: Rule, gap: string, ss: seq<string>)
    requires !rule.Paragraph? && gap != "" && AllSpace(gap) && ss != [] && AreSentences(rule, ss)
    ensures SplitText(rule, Join(gap, ss)) == ss
  {
    hide *;
    SentencesMean(rule, ss);
    JoinStart(gap, ss);
    if |ss| == 1 {
      OneSentence(rule, ss[0]);
    } else {
      SentencesMean(rule, ss[1..]);
      JoinStart(gap, ss[1..]);
      SentenceFirst(rule, ss[0], gap, Join(gap, ss[1..]));
      SentencesSplit(rule, gap, ss[1..]);
    }
  }

  /** Visible at both ends, and never two newlines with nothing visible between them. */
  predicate IsParagraph(p: string) {
    && p != "" && !IsSpace(p[0]) && !IsSpace(p[|p| - 1])
    && forall a, b :: 0 <= a < b < |p| && p[a] == '\n' && p[b] == '\n' ==> exists k :: a < k < b && !IsSpace(p[k])
  }

  lemma ParagraphEnds(p: string)
    requires IsParagraph(p)
    ensures p != "" && !IsSpace(p[0]) && !IsSpace(p[|p| - 1])
  {
    hide IsSpace;
  }

  lemma ParagraphStarts(p: string, more: string, a: int)
    requires IsParagraph(p) && 0 <= a < |p|
    ensures !StartsSeparator(Paragraph, p + more, a)
  {
    hide IsSeparator, IsParagraph;
    if b :| IsSeparator(Paragraph, p + more, a, b) {
      NoSeparatorInside(p, more, a, b);
    }
  }

  lemma NoSeparatorInside(p: string, more: string, a: int, b: int)
    requires IsParagraph(p) && 0 <= a < |p|
    ensures !IsSeparator(Paragraph, p + more, a, b)
  {
    hide IsSpace;
    var t := p + more;
    assert forall k :: 0 <= k < |p| ==> t[k] == p[k];
    if Spaces(t, a, b) {
      SpacesMean(t, a, b);
    }
  }

  /** A paragraph, a blank line, and more: the paragraph is the first piece, the others are those of the rest. */
  lemma ParagraphFirst(p: string, gap: string, rest: string)
    requires IsParagraph(p)
    requires |gap| >= 2 && AllSpace(gap) && gap[0] == '\n' && gap[|gap| - 1] == '\n'
    requires rest == "" || !IsSpace(rest[0])
    ensures SplitText(Paragraph, p + gap + rest) == [p] + SplitText(Paragraph, rest)
  {
    hide SplitText, IsSpace, IsParagraph, StartsSeparator, Spaces;
    var t := p + gap + rest;
    var l := |p| + |gap|;
    assert t == p + (gap + rest);
    forall a | 0 <= a < |p| ensures !StartsSeparator(Paragraph, t, a) {
      ParagraphStarts(p, gap + rest, a);
    }
    assert t[|p|..l] == gap && t[l..] == rest && t[..|p|] == p;
    SpacesAre(t, |p|, l);
    forall j | l <= j < |t| && Spaces(t, l, j) ensures t[j] != '\n' {
      SpacesMean(t, l, j);
      NewlineIsSpace();
      assert t[l] == rest[0];
    }
    assert IsSeparator(Paragraph, t, |p|, l);
    hide *;
    SplitAfter(Paragraph, t, |p|, l);
  }

  lemma OneParagraph(p: string)
    requires IsParagraph(p)
    ensures SplitText(Paragraph, p) == [p]
  {
    hide *;
    assert p + "" == p;
    forall a | 0 <= a < |p| ensures !StartsSeparator(Paragraph, p, a) {
      ParagraphStarts(p, "", a);
    }
    LastPiece(Paragraph, p, 0);
    OneSplitText(Paragraph, p, [Span(0, |p|)]);
    PiecesOne(p);
  }

  /** Paragraphs with a blank line between them are split into just these paragraphs. */
  lemma {:induction false} ParagraphsSplit(ps: seq<string>)
    requires ps != [] && forall i :: 0 <= i < |ps| ==> IsParagraph(ps[i])
    ensures SplitText(Paragraph, Join("\n\n", ps)) == ps
  {
    hide *;
    ParagraphEnds(ps[0]);
    JoinStart("\n\n", ps);
    if |ps| == 1 {
      OneParagraph(ps[0]);
    } else {
      ParagraphEnds(ps[1]);
      BlankLine();
      JoinStart("\n\n", ps[1..]);
      ParagraphFirst(ps[0], "\n\n", Join("\n\n", ps[1..]));
      ParagraphsSplit(ps[1..]);
    }
  }

  lemma BlankLine()
    ensures AllSpace("\n\n") && AllSpace("\n") && IsSpace('\n')
    ensures forall p: string :: p + "\n\n" == p + "\n" + "\n"
  {
  }

  /** A paragraph as the sentence it is in a parent: with its newline, unless a full stop ends it already. */
  function Closed(p: string): string {
    if p != "" && EndsSentence(Sentence, p[|p| - 1]) then p else p + "\n"
  }

  function ClosedButLast(ps: seq<string>): seq<string> {
    if |ps| <= 1 then ps else [Closed(ps[0])] + ClosedButLast(ps[1..])
  }

  predicate OneLine(p: string) {
    p != "" && !IsSpace(p[0]) && !IsSpace(p[|p| - 1]) && NoBreak(Sentence, p)
  }

  lemma OneLineMeans(p: string)
    requires OneLine(p)
    ensures p != "" && !IsSpace(p[0]) && NoBreak(Sentence, p)
    ensures Closed(p) != "" && NoBreak(Sentence, Closed(p))
    ensures EndsSentence(Sentence, Closed(p)[|Closed(p)| - 1])
    ensures p + "\n\n" == Closed(p) + "\n" || p + "\n\n" == Closed(p) + "\n\n"
  {
    hide IsSpace;
    BlankLine();
    NoBreakThenNewline(p);
  }

  lemma NoBreakThenNewline(p: string)
    requires p != "" && NoBreak(Sentence, p)
    ensures EndsSentence(Sentence, p[|p| - 1]) || NoBreak(Sentence, p + "\n")
  {
    hide IsSpace, EndsSentence;
    var s := p + "\n";
    if !EndsSentence(Sentence, p[|p| - 1]) {
      forall k | 0 < k < |s| && IsSpace(s[k]) ensures !EndsSentence(Sentence, s[k - 1]) {
        assert k < |p| ==> s[k] == p[k];
      }
    }
  }

  lemma UnfoldClosed(ps: seq<string>)
    requires |ps| > 1
    ensures ClosedButLast(ps) == [Closed(ps[0])] + ClosedButLast(ps[1..])
  {
    hide Closed;
  }

  /**
   * The paragraphs of a parent are joined by blank lines, and each newline ends a sentence: paragraphs without
   * an inner break are the sentences of their parent, one each.
   */
  lemma {:induction false} ParagraphSentences(ps: seq<string>)
    requires ps != [] && forall i :: 0 <= i < |ps| ==> OneLine(ps[i])
    ensures SplitText(Sentence, Join("\n\n", ps)) == ClosedButLast(ps)
  {
    hide *;
    OneLineMeans(ps[0]);
    JoinStart("\n\n", ps);
    if |ps| == 1 {
      OneSentence(Sentence, ps[0]);
      assert ClosedButLast(ps) == ps by { ClosedOne(ps); }
    } else {
      OneLineMeans(ps[1]);
      BlankLine();
      var rest := Join("\n\n", ps[1..]);
      JoinStart("\n\n", ps[1..]);
      if ps[0] + "\n\n" == Closed(ps[0]) + "\n" {
        SentenceFirst(Sentence, Closed(ps[0]), "\n", rest);
      } else {
        SentenceFirst(Sentence, Closed(ps[0]), "\n\n", rest);
      }
      ParagraphSentences(ps[1..]);
      UnfoldClosed(ps);
    }
  }

  lemma ClosedOne(ps: seq<string>)
    requires |ps| == 1
    ensures ClosedButLast(ps) == ps
  {
  }
}
