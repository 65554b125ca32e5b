/** What looks like an attempted citation, and which well-formed citations are taken for malformed ones. */
module CitationAttempts {
  import opened Text
  import opened CitationGrammar

  const MAX_LABEL: nat := 80
  const MIN_ATTEMPT: nat := 5

  // `CITATION_PATTERN.fullmatch`: where a match ends is decided by its own text.
  predicate IsCitation(s: string) {
    MatchPrefix(ENFORCER, s).Some? && MatchPrefix(ENFORCER, s).value.length == |s|
  }

  // ---------------------------------------------------------------- the scanner

  predicate IsLabelChar(c: char) {
    c != '[' && c != ']' && c != '\n'
  }

  /** `\]?:\s*"[^"]{5,}"` from position `t`: where it ends. */
  function TailEnd(s: string, t: nat): (e: Option<nat>)
    requires t <= |s|
    ensures e.Some? ==> t < e.value <= |s|
  {
    var c := if t < |s| && s[t] == ']' then t + 1 else t;
    if c >= |s| || s[c] != ':' then None else
    var q := SkipSpace(s, c + 1);
    if q == |s| || s[q] != '"' then None else
    var e := IndexOf(s, '"', q + 1);
    if e == |s| || e - (q + 1) < MIN_ATTEMPT then None else Some(e + 1)
  }

  /** The end of the label characters from `a` on, not past `limit`. */
  function LabelEnd(s: string, a: nat, limit: nat): (e: nat)
    requires a <= |s|
    ensures a <= e <= |s|
    ensures forall i :: a <= i < e ==> IsLabelChar(s[i])
    ensures e <= limit || e == a
    ensures e < |s| && e < limit ==> !IsLabelChar(s[e])
    decreases |s| - a
  {
    if a >= limit || a == |s| || !IsLabelChar(s[a]) then a else LabelEnd(s, a + 1, limit)
  }

  /** The longest label first: the last `t` up to `n` behind which the rest follows. */
  function LastTail(s: string, a: nat, n: nat): (e: Option<nat>)
    requires n <= |s|
    ensures e.Some? ==> a < e.value <= |s|
  {
    if n <= a then None
    else if TailEnd(s, n).Some? then TailEnd(s, n)
    else LastTail(s, a, n - 1)
  }

  function LabelStart(s: string): (a: nat)
    ensures a <= |s|
  {
    if s != "" && s[0] == '[' then 1 else 0
  }

  /** `\[?[^\[\]\n]{1,80}\]?:\s*"[^"]{5,}"` at the start of `s`: its length. */
  function Attempt(s: string): (e: Option<nat>)
    ensures e.Some? ==> 0 < e.value <= |s|
  {
    LastTail(s, LabelStart(s), LabelEnd(s, LabelStart(s), LabelStart(s) + MAX_LABEL))
  }

  function FindAttempts(s: string): seq<string>
    decreases |s|
  {
    if s == "" then [] else
    match Attempt(s)
    case Some(n) => [s[..n]] + FindAttempts(s[n..])
    case None => FindAttempts(s[1..])
  }

  predicate AllCitations(attempts: seq<string>) {
    forall a :: a in attempts ==> IsCitation(a)
  }

  // ---------------------------------------------------------------- a citation at the start of a text

  /** The label of a citation, and a label without a bracket or a line break in it. */
  function LabelOf(s: string): string
    requires Locate(s).Some?
  {
    s[1..Locate(s).value.bracket]
  }

  predicate PlainLabel(text: string) {
    forall i :: 0 <= i < |text| ==> text[i] != '[' && text[i] != ']' && text[i] != '\n'
  }

  lemma PlainChars(text: string)
    requires PlainLabel(text)
    ensures forall i :: 0 <= i < |text| ==> IsLabelChar(text[i])
  {
  }

  lemma CitationPlaces(s: string)
    requires IsCitation(s)
    ensures Locate(s).Some? && Locate(s).value.close == |s| - 1
    ensures Locate(s).value.close - (Locate(s).value.open + 1) >= 10
  {
    hide Locate, SplitPoint, SectionPart;
  }

  lemma PlacesMean(s: string)
    requires Locate(s).Some?
    ensures var p := Locate(s).value;
      && s[0] == '[' && s[p.bracket] == ']' && s[p.bracket + 1] == ':' && s[p.open] == '"' && s[p.close] == '"'
      && p.bracket + 2 <= p.open
      && SkipSpace(s, p.bracket + 2) == p.open && IndexOf(s, '"', p.open + 1) == p.close
  {
    hide SkipSpace;
  }

  /** Behind the label of a citation the rest of an attempt follows. */
  lemma TailAtBracket(s: string)
    requires Locate(s).Some? && Locate(s).value.close - (Locate(s).value.open + 1) >= 10
    ensures TailEnd(s, Locate(s).value.bracket) == Some(Locate(s).value.close + 1)
  {
    PlacesMean(s);
    hide Locate, SkipSpace, IndexOf;
  }

  lemma LabelEndIs(s: string, a: nat, limit: nat, e: nat)
    requires a <= e <= |s| && e <= limit && (e == |s| || e == limit || !IsLabelChar(s[e]))
    requires forall i :: a <= i < e ==> IsLabelChar(s[i])
    ensures LabelEnd(s, a, limit) == e
    decreases e - a
  {
    hide IsLabelChar;
  }

  lemma LabelChars(s: string)
    requires Locate(s).Some? && PlainLabel(LabelOf(s))
    ensures forall i :: 1 <= i < Locate(s).value.bracket ==> IsLabelChar(s[i])
  {
    PlainChars(LabelOf(s));
    hide Locate, IsLabelChar, PlainLabel;
    assert forall i :: 1 <= i < Locate(s).value.bracket ==> s[i] == LabelOf(s)[i - 1];
  }

  /** With a label of up to 80 characters the first attempt is the citation itself. */
  lemma ShortLabelAttempt(s: string)
    requires Locate(s).Some? && Locate(s).value.close - (Locate(s).value.open + 1) >= 10
    requires PlainLabel(LabelOf(s)) && |LabelOf(s)| <= MAX_LABEL
    requires Locate(s).value.bracket > 1
    ensures Attempt(s) == Some(Locate(s).value.close + 1)
  {
    var r := Locate(s).value.bracket;
    PlacesMean(s);
    LabelChars(s);
    TailAtBracket(s);
    hide Locate, TailEnd, SkipSpace, IndexOf;
    LabelEndIs(s, 1, 1 + MAX_LABEL, r);
  }

  /** With a longer one, an attempt starts where 80 characters of the label are left. */
  lemma LongLabelAttempt(s: string)
    requires Locate(s).Some? && Locate(s).value.close - (Locate(s).value.open + 1) >= 10
    requires PlainLabel(LabelOf(s)) && |LabelOf(s)| > MAX_LABEL
    ensures Attempt(s[Locate(s).value.bracket - MAX_LABEL..]).Some?
  {
    var p := Locate(s).value;
    var i := p.bracket - MAX_LABEL;
    PlacesMean(s);
    LabelChars(s);
    hide Locate, SkipSpace, IndexOf;
    var t := s[i..];
    assert forall k :: 0 <= k < |t| ==> t[k] == s[i + k];
    LabelEndIs(t, 0, MAX_LABEL, MAX_LABEL);
    TailInSlice(s, p, i);
    hide TailEnd;
    assert LastTail(t, 0, MAX_LABEL).Some?;
  }

  lemma TailInSlice(s: string, p: Places, i: nat)
    requires i <= p.bracket < p.open < p.close < |s|
    requires p.bracket + 2 <= p.open && p.close - (p.open + 1) >= 10
    requires s[p.bracket] == ']' && s[p.bracket + 1] == ':' && s[p.open] == '"' && s[p.close] == '"'
    requires SkipSpace(s, p.bracket + 2) == p.open && IndexOf(s, '"', p.open + 1) == p.close
    ensures TailEnd(s[i..], p.bracket - i).Some?
  {
    hide *;
    SkipSpaceSlice(s, p.bracket + 2, i);
    IndexOfSlice(s, '"', p.open + 1, p.open + 1, i);
    TailEndIs(s[i..], p.bracket - i, p.open - i, p.close - i);
  }

  lemma TailEndIs(s: string, t: nat, q: nat, e: nat)
    requires t + 2 <= q < e < |s| && s[t] == ']' && s[t + 1] == ':' && s[q] == '"' && e - (q + 1) >= 10
    requires SkipSpace(s, t + 2) == q && IndexOf(s, '"', q + 1) == e
    ensures TailEnd(s, t) == Some(e + 1)
  {
    hide SkipSpace, IndexOf;
  }

  lemma QuoteMarkIsVisible()
    ensures !IsSpace('"') && !IsSpace(']')
  {
  }

  // ---- no attempt that starts in a long label is a citation

  lemma {:induction false} LastTailIsTail(s: string, a: nat, n: nat)
    requires n <= |s| && LastTail(s, a, n).Some?
    ensures exists t :: a < t <= n && TailEnd(s, t) == LastTail(s, a, n)
  {
    hide TailEnd;
    if TailEnd(s, n).None? {
      LastTailIsTail(s, a, n - 1);
    }
  }

  // A tail that starts inside the label has its opening quote mark there, so it ends by the citation's own.
  lemma TailEndsEarly(s: string, t: nat)
    requires Locate(s).Some? && t < Locate(s).value.bracket && TailEnd(s, t).Some?
    requires s[t] != ']'
    ensures TailEnd(s, t).value <= Locate(s).value.open + 1
  {
    var p := Locate(s).value;
    PlacesMean(s);
    QuoteMarkIsVisible();
    hide Locate, IsSpace;
    var q := SkipSpace(s, t + 1);
    assert q <= p.bracket;
  }

  lemma CutCitation(s: string, n: nat)
    requires Locate(s).Some? && n <= Locate(s).value.open + 1 && n <= |s|
    ensures !IsCitation(s[..n])
  {
    hide SplitPoint, SectionPart, Locate;
    if Locate(s[..n]).Some? {
      assert s == s[..n] + s[n..];
      LocateStable(s[..n], s[n..]);
    }
  }

  /** The first attempt in a text that starts with a long label is not a citation. */
  lemma LongLabelIsMalformed(s: string, i: nat)
    requires Locate(s).Some? && PlainLabel(LabelOf(s)) && |LabelOf(s)| > MAX_LABEL
    requires i < Locate(s).value.bracket && Attempt(s[i..]).Some?
    ensures !IsCitation(s[i..][..Attempt(s[i..]).value])
  {
    LabelChars(s);
    if i == 0 {
      assert s[0..] == s;
      LongLabelAtStart(s);
    } else {
      var a := s[i..][..Attempt(s[i..]).value];
      assert a[0] == s[i];
      assert IsLabelChar(s[i]);
      hide Locate, Attempt;
    }
  }

  lemma LongLabelAtStart(s: string)
    requires Locate(s).Some? && PlainLabel(LabelOf(s)) && |LabelOf(s)| > MAX_LABEL && Attempt(s).Some?
    ensures !IsCitation(s[..Attempt(s).value])
  {
    var p := Locate(s).value;
    PlacesMean(s);
    LabelChars(s);
    hide Locate, TailEnd, MatchPrefix;
    var n := LabelEnd(s, 1, 1 + MAX_LABEL);
    LastTailIsTail(s, 1, n);
    var t :| 1 < t <= n && TailEnd(s, t) == Attempt(s);
    assert IsLabelChar(s[t]);
    TailEndsEarly(s, t);
    CutCitation(s, Attempt(s).value);
  }

  // ---------------------------------------------------------------- the check on a text that starts with a citation

  lemma {:induction false} FirstAttempt(s: string, i: nat) returns (k: nat)
    requires i < |s| && Attempt(s[i..]).Some?
    ensures k <= i && Attempt(s[k..]).Some?
    ensures s[k..][..Attempt(s[k..]).value] in FindAttempts(s)
    decreases i
  {
    hide Attempt;
    assert s[0..] == s;
    if Attempt(s).Some? {
      k := 0;
    } else {
      assert s[1..][i - 1..] == s[i..];
      var j := FirstAttempt(s[1..], i - 1);
      assert s[1..][j..] == s[j + 1..];
      k := j + 1;
    }
  }

  /**
   * A text that starts with a citation whose label has no bracket and no line break in it passes the format
   * check if and only if that label has at most 80 characters and the rest of the text passes.
   */
  lemma FormatAtStart(s: string, more: string)
    requires IsCitation(s) && Locate(s).Some? && PlainLabel(LabelOf(s))
    ensures AllCitations(FindAttempts(s + more))
       <==> |LabelOf(s)| <= 80 && AllCitations(FindAttempts(more))
  {
    assert MAX_LABEL == 80;
    hide *;
    if |LabelOf(s)| <= 80 {
      ShortLabelPasses(s, more);
    } else {
      LongLabelFails(s, more);
    }
  }

  lemma SameLabel(s: string, more: string)
    requires Locate(s).Some?
    ensures Locate(s + more) == Locate(s) && LabelOf(s + more) == LabelOf(s)
  {
    LocateStable(s, more);
    hide Locate;
    assert (s + more)[1..Locate(s).value.bracket] == s[1..Locate(s).value.bracket];
  }

  lemma UnfoldAttempts(s: string)
    requires s != "" && Attempt(s).Some?
    ensures FindAttempts(s) == [s[..Attempt(s).value]] + FindAttempts(s[Attempt(s).value..])
  {
    hide Attempt;
  }

  lemma ShortLabelPasses(s: string, more: string)
    requires IsCitation(s) && Locate(s).Some? && PlainLabel(LabelOf(s)) && |LabelOf(s)| <= MAX_LABEL
    ensures AllCitations(FindAttempts(s + more)) <==> AllCitations(FindAttempts(more))
  {
    CitationPlaces(s);
    LabelNotEmpty(s);
    hide *;
    SameLabel(s, more);
    ShortLabelAttempt(s + more);
    UnfoldAttempts(s + more);
    assert (s + more)[..|s|] == s && (s + more)[|s|..] == more;
    AllCons(s, FindAttempts(more));
  }

  lemma LongLabelFails(s: string, more: string)
    requires IsCitation(s) && Locate(s).Some? && PlainLabel(LabelOf(s)) && |LabelOf(s)| > MAX_LABEL
    ensures !AllCitations(FindAttempts(s + more))
  {
    CitationPlaces(s);
    SameLabel(s, more);
    hide *;
    LongLabelText(s + more);
  }

  lemma LongLabelText(text: string)
    requires Locate(text).Some? && Locate(text).value.close - (Locate(text).value.open + 1) >= 10
    requires PlainLabel(LabelOf(text)) && |LabelOf(text)| > MAX_LABEL
    ensures !AllCitations(FindAttempts(text))
  {
    assert MAX_LABEL > 0;
    hide *;
    LabelLength(text);
    LongLabelAttempt(text);
    var k := FirstAttempt(text, Locate(text).value.bracket - MAX_LABEL);
    LongLabelIsMalformed(text, k);
    NotAll(FindAttempts(text), text[k..][..Attempt(text[k..]).value]);
  }

  lemma LabelLength(s: string)
    requires Locate(s).Some?
    ensures |LabelOf(s)| == Locate(s).value.bracket - 1
  {
    hide Locate;
  }

  lemma NotAll(attempts: seq<string>, a: string)
    requires a in attempts && !IsCitation(a)
    ensures !AllCitations(attempts)
  {
    hide IsCitation;
  }

  lemma LabelNotEmpty(s: string)
    requires IsCitation(s)
    ensures Locate(s).Some? && Locate(s).value.bracket > 1
  {
    hide Locate, SectionPart;
  }

  lemma AllCons(s: string, rest: seq<string>)
    requires IsCitation(s)
    ensures AllCitations([s] + rest) <==> AllCitations(rest)
  {
    hide IsCitation;
    assert forall a :: a in [s] + rest <==> a == s || a in rest;
  }

  /**
   * So a printed citation that every other check reads is taken for malformed as soon as document and section
   * together have more than 78 characters.
   */
  lemma PrintedFormat(c: Citation, more: string)
    requires Printable(c) && PlainLabel(c.doc + ", " + c.section)
    ensures AllCitations(FindAttempts(Print(c) + more))
       <==> |c.doc| + |c.section| <= 78 && AllCitations(FindAttempts(more))
  {
    hide PlainLabel, Locate, MatchPrefix, Print, FindAttempts, AllCitations;
    var p := PrintedAt(c, "");
    PrintParse(c, "");
    assert Print(c) + "" == Print(c);
    assert LabelOf(Print(c)) == c.doc + ", " + c.section;
    FormatAtStart(Print(c), more);
  }

  // ---------------------------------------------------------------- quotes without brackets

  /** A label and a quote without the brackets of a citation. */
  function Bare(text: string, quote: string): string {
    text + ": \"" + quote + "\""
  }

  lemma BareChars(text: string, quote: string, more: string)
    ensures var s, q := Bare(text, quote) + more, |text| + 2;
      && |s| == q + 2 + |quote| + |more| && s[|text|] == ':' && s[|text| + 1] == ' ' && s[q] == '"'
      && s[q + 1..q + 1 + |quote|] == quote && s[q + 1 + |quote|] == '"'
      && (forall k :: 0 <= k < |text| ==> s[k] == text[k])
      && (forall k :: 0 <= k < |quote| ==> s[q + 1 + k] == quote[k])
  {
    var s, q := Bare(text, quote) + more, |text| + 2;
    assert s[q + 1..q + 1 + |quote|] == quote;
  }

  // The tail of a bare quote starts at its colon.
  lemma BareTail(text: string, quote: string, more: string)
    requires text != "" && PlainLabel(text) && '"' !in quote && |quote| >= 5
    ensures TailEnd(Bare(text, quote) + more, |text|).Some?
  {
    var s, q := Bare(text, quote) + more, |text| + 2;
    BareChars(text, quote, more);
    hide Bare;
    QuoteMarkIsVisible();
    SkipSpaceIs(s, |text| + 1, q);
    IndexOfIs(s, '"', q + 1, q + 1 + |quote|);
  }

  lemma TailFrom(s: string, k: nat, t: nat)
    requires k <= t <= |s| && TailEnd(s, t).Some?
    ensures TailEnd(s[k..], t - k).Some?
  {
    var c := if t < |s| && s[t] == ']' then t + 1 else t;
    TailMeans(s, t);
    var q := SkipSpace(s, c + 1);
    TailCut(s, k, t, c, q, IndexOf(s, '"', q + 1));
  }

  lemma TailCut(s: string, k: nat, t: nat, c: nat, q: nat, e: nat)
    requires k <= t <= c < q < e < |s| && c == (if s[t] == ']' then t + 1 else t) && s[c] == ':'
    requires SkipSpace(s, c + 1) == q && s[q] == '"' && IndexOf(s, '"', q + 1) == e && q + 1 + MIN_ATTEMPT <= e
    ensures TailEnd(s[k..], t - k).Some?
  {
    hide *;
    PlacesCut(s, k, c, q, e);
    CharsCut(s, k, t, c, q);
    TailGiven(s[k..], t - k, c - k, q - k, e - k);
  }

  lemma PlacesCut(s: string, k: nat, c: nat, q: nat, e: nat)
    requires k <= c < q < e < |s| && SkipSpace(s, c + 1) == q && IndexOf(s, '"', q + 1) == e
    ensures SkipSpace(s[k..], c - k + 1) == q - k && IndexOf(s[k..], '"', q - k + 1) == e - k
  {
    hide *;
    SkipSpaceSlice(s, c + 1, k);
    IndexOfSlice(s, '"', q + 1, q + 1, k);
  }

  lemma CharsCut(s: string, k: nat, t: nat, c: nat, q: nat)
    requires k <= t <= c < q < |s|
    ensures s[k..][t - k] == s[t] && s[k..][c - k] == s[c] && s[k..][q - k] == s[q]
  {
  }

  lemma TailMeans(s: string, t: nat)
    requires t <= |s| && TailEnd(s, t).Some?
    ensures var c := if t < |s| && s[t] == ']' then t + 1 else t;
      && c < |s| && s[c] == ':'
      && var q := SkipSpace(s, c + 1);
      && c + 1 <= q < |s| && s[q] == '"'
      && var e := IndexOf(s, '"', q + 1);
      && q + 1 + MIN_ATTEMPT <= e < |s|
  {
    hide SkipSpace, IndexOf;
  }

  lemma TailGiven(s: string, t: nat, c: nat, q: nat, e: nat)
    requires t <= c < q < e < |s| && c == (if s[t] == ']' then t + 1 else t) && s[c] == ':'
    requires SkipSpace(s, c + 1) == q && s[q] == '"' && IndexOf(s, '"', q + 1) == e && q + 1 + MIN_ATTEMPT <= e
    ensures TailEnd(s, t).Some?
  {
    hide SkipSpace, IndexOf;
  }

  lemma {:induction false} TailIsFound(s: string, a: nat, t: nat, n: nat)
    requires a < t <= n <= |s| && TailEnd(s, t).Some?
    ensures LastTail(s, a, n).Some?
  {
    hide TailEnd;
    if t < n && TailEnd(s, n).None? {
      TailIsFound(s, a, t, n - 1);
    }
  }

  // An attempt starts where at most 80 characters of the label are left, in front of the colon.
  lemma BareAttempt(text: string, quote: string, more: string)
    requires text != "" && PlainLabel(text) && '"' !in quote && |quote| >= 5
    ensures var k := Max(0, |text| - 80); Attempt((Bare(text, quote) + more)[k..]).Some?
  {
    var s, k := Bare(text, quote) + more, Max(0, |text| - 80);
    BareLabel(text, quote, more, k);
    BareTail(text, quote, more);
    hide *;
    TailFrom(s, k, |text|);
    AttemptUpTo(s[k..], |text| - k);
  }

  lemma BareLabel(text: string, quote: string, more: string, k: nat)
    requires k <= |text| && PlainLabel(text)
    ensures var rest := (Bare(text, quote) + more)[k..];
      |text| - k <= |rest| && forall i :: 0 <= i < |text| - k ==> IsLabelChar(rest[i])
  {
    PlainChars(text);
    hide IsLabelChar, PlainLabel;
    BareChars(text, quote, more);
    hide Bare;
    var rest := (Bare(text, quote) + more)[k..];
    assert forall i :: 0 <= i < |text| - k ==> rest[i] == text[k + i];
  }

  lemma AttemptUpTo(s: string, n: nat)
    requires 0 < n <= |s| && n <= 80 && (forall i :: 0 <= i < n ==> IsLabelChar(s[i])) && TailEnd(s, n).Some?
    ensures Attempt(s).Some?
  {
    hide TailEnd, LastTail, LabelEnd;
    LabelReaches(s, 0, MAX_LABEL, n);
    TailIsFound(s, 0, n, LabelEnd(s, 0, MAX_LABEL));
  }

  lemma LabelReaches(s: string, a: nat, limit: nat, n: nat)
    requires a <= n <= |s| && n <= limit && forall i :: a <= i < n ==> IsLabelChar(s[i])
    ensures n <= LabelEnd(s, a, limit)
  {
    hide IsLabelChar;
  }

  // Only two quote marks, fewer than five characters apart.
  predicate ShortlyQuoted(s: string, q: int, e: int) {
    q < e <= q + 5 && forall k :: 0 <= k < |s| && s[k] == '"' ==> k == q || k == e
  }

  lemma NoTail(s: string, q: int, e: int, t: nat)
    requires ShortlyQuoted(s, q, e) && t <= |s|
    ensures TailEnd(s, t).None?
  {
    hide IsSpace;
  }

  lemma {:induction false} NoLastTail(s: string, q: int, e: int, a: nat, n: nat)
    requires ShortlyQuoted(s, q, e) && n <= |s|
    ensures LastTail(s, a, n).None?
  {
    hide TailEnd, ShortlyQuoted;
    if a < n {
      NoTail(s, q, e, n);
      NoLastTail(s, q, e, a, n - 1);
    }
  }

  lemma {:induction false} NoAttempts(s: string, q: int, e: int)
    requires ShortlyQuoted(s, q, e)
    ensures FindAttempts(s) == []
    decreases |s|
  {
    hide LastTail, LabelStart, LabelEnd;
    if s != "" {
      NoLastTail(s, q, e, LabelStart(s), LabelEnd(s, LabelStart(s), LabelStart(s) + MAX_LABEL));
      assert ShortlyQuoted(s[1..], q - 1, e - 1);
      NoAttempts(s[1..], q - 1, e - 1);
    }
  }

  lemma NotACitation(s: string, k: nat, n: nat)
    requires k < |s| && s[k] != '[' && n <= |s[k..]|
    ensures !IsCitation(s[k..][..n])
  {
    hide Locate, SplitPoint, SectionPart;
  }

  /**
   * A quote behind a label without brackets, the only quote of a text, is charged as a malformed citation if and
   * only if it has five characters.
   */
  lemma BareQuote(text: string, quote: string, more: string)
    requires text != "" && PlainLabel(text) && '"' !in text && '"' !in quote && '"' !in more
    ensures AllCitations(FindAttempts(Bare(text, quote) + more)) <==> |quote| < 5
  {
    hide *;
    if |quote| < 5 {
      BareIsShort(text, quote, more);
      NoAttempts(Bare(text, quote) + more, |text| + 2, |text| + 3 + |quote|);
      NoneMalformed();
    } else {
      BareIsCharged(text, quote, more);
    }
  }

  lemma NoneMalformed()
    ensures AllCitations([])
  {
  }

  lemma BareIsShort(text: string, quote: string, more: string)
    requires '"' !in text && '"' !in quote && '"' !in more && |quote| < 5
    ensures ShortlyQuoted(Bare(text, quote) + more, |text| + 2, |text| + 3 + |quote|)
  {
  }

  lemma BareIsCharged(text: string, quote: string, more: string)
    requires text != "" && PlainLabel(text) && '"' !in quote && |quote| >= 5
    ensures !AllCitations(FindAttempts(Bare(text, quote) + more))
  {
    var s := Bare(text, quote) + more;
    BareAttempt(text, quote, more);
    BareChars(text, quote, more);
    hide Bare, Attempt, FindAttempts, IsCitation, AllCitations;
    var k := FirstAttempt(s, Max(0, |text| - 80));
    NotACitation(s, k, Attempt(s[k..]).value);
    NotAll(FindAttempts(s), s[k..][..Attempt(s[k..]).value]);
  }

  // ---------------------------------------------------------------- labels end at a line break

  // Up to a line break before the colon no tail starts.
  lemma NoTailUpTo(s: string, line: nat, colon: nat, t: nat)
    requires t <= line < colon < |s| && s[line] == '\n' && s[colon] == ':'
    requires forall k :: 0 <= k <= colon ==> s[k] != '"'
    ensures TailEnd(s, t).None?
  {
    assert !IsSpace(':');
    hide IsSpace;
  }

  lemma {:induction false} NoLastTailUpTo(s: string, line: nat, colon: nat, a: nat, n: nat)
    requires n <= line < colon < |s| && s[line] == '\n' && s[colon] == ':'
    requires forall k :: 0 <= k <= colon ==> s[k] != '"'
    ensures LastTail(s, a, n).None?
  {
    hide TailEnd;
    if a < n {
      NoTailUpTo(s, line, colon, n);
      NoLastTailUpTo(s, line, colon, a, n - 1);
    }
  }

  lemma LabelStopsAt(s: string, a: nat, limit: nat, line: nat)
    requires a <= line < |s| && s[line] == '\n'
    ensures LabelEnd(s, a, limit) <= line
  {
  }

  lemma NoAttemptBefore(s: string, line: nat, colon: nat)
    requires line < colon < |s| && s[line] == '\n' && s[colon] == ':'
    requires forall k :: 0 <= k <= colon ==> s[k] != '"'
    ensures Attempt(s).None?
  {
    hide TailEnd, LastTail, LabelEnd;
    assert LabelStart(s) <= line;
    LabelStopsAt(s, LabelStart(s), LabelStart(s) + MAX_LABEL, line);
    NoLastTailUpTo(s, line, colon, LabelStart(s), LabelEnd(s, LabelStart(s), LabelStart(s) + MAX_LABEL));
  }

  lemma {:induction false} LastTailIs(s: string, a: nat, t: nat, n: nat)
    requires a < t <= n <= |s| && TailEnd(s, t).Some? && forall u :: t < u <= n ==> TailEnd(s, u).None?
    ensures LastTail(s, a, n) == TailEnd(s, t)
  {
    hide TailEnd;
    if t < n {
      LastTailIs(s, a, t, n - 1);
    }
  }

  // Behind the colon of a bare quote only one quote mark of two can still be the opening one.
  lemma NoTailBehind(text: string, quote: string, t: nat)
    requires '"' !in text && '"' !in quote && |text| < t <= |Bare(text, quote)|
    ensures TailEnd(Bare(text, quote), t).None?
  {
    var s, q := Bare(text, quote), |text| + 2;
    BareChars(text, quote, "");
    assert s + "" == s;
    OnlyTwoMarks(text, quote);
    hide Bare, IsSpace;
  }

  lemma OnlyTwoMarks(text: string, quote: string)
    requires '"' !in text && '"' !in quote
    ensures var s, q := Bare(text, quote), |text| + 2;
      && |s| == q + 2 + |quote| && forall k :: 0 <= k < |s| && s[k] == '"' ==> k == q || k == q + 1 + |quote|
  {
  }

  lemma BareTailIs(text: string, quote: string)
    requires text != "" && PlainLabel(text) && '"' !in text && '"' !in quote && |quote| >= 5
    ensures TailEnd(Bare(text, quote), |text|) == Some(|Bare(text, quote)|)
  {
    var s, q := Bare(text, quote), |text| + 2;
    BareChars(text, quote, "");
    assert s + "" == s;
    hide Bare;
    QuoteMarkIsVisible();
    SkipSpaceIs(s, |text| + 1, q);
    IndexOfIs(s, '"', q + 1, q + 1 + |quote|);
  }

  lemma WholeBareAttempt(text: string, quote: string)
    requires text != "" && PlainLabel(text) && |text| <= 80
    requires '"' !in text && '"' !in quote && |quote| >= 5
    ensures Attempt(Bare(text, quote)) == Some(|Bare(text, quote)|)
  {
    var s := Bare(text, quote);
    BareLabel(text, quote, "", 0);
    assert s + "" == s && s[0..] == s;
    BareTailIs(text, quote);
    forall u | |text| < u <= |s| ensures TailEnd(s, u).None? {
      NoTailBehind(text, quote, u);
    }
    hide Bare, TailEnd, LabelEnd, LastTail;
    LabelReaches(s, 0, MAX_LABEL, |text|);
    LastTailIs(s, 0, |text|, LabelEnd(s, 0, MAX_LABEL));
  }

  /** A label goes back to the last line break before it and no further. */
  lemma {:induction false} LabelAfterBreak(before: string, text: string, quote: string)
    requires text != "" && PlainLabel(text) && |text| <= 80
    requires '"' !in before && '"' !in text && '"' !in quote && |quote| >= 5
    ensures FindAttempts(before + "\n" + Bare(text, quote)) == [Bare(text, quote)]
    decreases |before|
  {
    var bare := Bare(text, quote);
    var s := before + "\n" + bare;
    BareAfterBreak(before, text, quote);
    NoAttemptBefore(s, |before|, |before| + 1 + |text|);
    if before == "" {
      assert s[1..] == bare;
      WholeBareAttempt(text, quote);
      hide *;
      UnfoldAttempts(bare);
      NothingAttempted(s, bare);
    } else {
      assert s[1..] == before[1..] + "\n" + bare;
      hide *;
      LabelAfterBreak(before[1..], text, quote);
      SkipNoAttempt(s);
    }
  }

  lemma BareAfterBreak(before: string, text: string, quote: string)
    requires '"' !in before && '"' !in text
    ensures var s, colon := before + "\n" + Bare(text, quote), |before| + 1 + |text|;
      && colon < |s| && s[|before|] == '\n' && s[colon] == ':' && forall k :: 0 <= k <= colon ==> s[k] != '"'
  {
  }

  lemma SkipNoAttempt(s: string)
    requires s != "" && Attempt(s).None?
    ensures FindAttempts(s) == FindAttempts(s[1..])
  {
    hide Attempt;
  }

  lemma NothingAttempted(s: string, bare: string)
    requires s != "" && Attempt(s).None? && s[1..] == bare && bare != ""
    requires Attempt(bare) == Some(|bare|) && FindAttempts(bare) == [bare[..|bare|]] + FindAttempts(bare[|bare|..])
    ensures FindAttempts(s) == [bare]
  {
    hide Attempt;
    assert bare[..|bare|] == bare && bare[|bare|..] == "";
    assert FindAttempts("") == [];
  }
}
