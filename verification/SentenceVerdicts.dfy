/** Which numbers the enforcer takes for sourced, said of the text it is given. */
module SentenceVerdicts {
  import opened Text
  import opened Splitting
  import opened SplitLaws
  import opened CitationGrammar
  import opened CitedTexts
  import opened CitationAttempts
  import opened Enforcer

  // Ends in a full stop, an exclamation mark or a question mark, and in nothing of the kind before.
  predicate Complete(s: string) {
    s != "" && s[|s| - 1] in ".!?" && NoInnerEnd(s)
  }

  predicate NoInnerEnd(s: string) {
    forall k :: 0 < k < |s| && IsSpace(s[k]) ==> s[k - 1] !in ".!?"
  }

  lemma StatementEnds(s: string)
    ensures NoInnerEnd(s) <==> NoBreak(Statement, s)
    ensures s != "" ==> (s[|s| - 1] in ".!?" <==> EndsSentence(Statement, s[|s| - 1]))
  {
    hide IsSpace;
  }

  lemma SentencesOfText(content: string)
    ensures Sentences(content) == SplitText(Statement, content)
  {
    hide Spans, Pieces, Tiles;
  }

  /** A complete sentence in front of whitespace and more text is the first sentence. */
  lemma FirstSentence(s: string, gap: string, rest: string)
    requires Complete(s) && gap != "" && AllSpace(gap) && (rest == "" || !IsSpace(rest[0]))
    ensures Sentences(s + gap + rest) == [s] + Sentences(rest)
  {
    hide SplitText, Sentences, IsSpace, AllSpace, NoBreak, EndsSentence, NoInnerEnd;
    StatementEnds(s);
    SentencesOfText(rest);
    SentencesOfText(s + gap + rest);
    SentenceFirst(Statement, s, gap, rest);
  }

  lemma OnlySentence(s: string)
    requires NoInnerEnd(s)
    ensures Sentences(s) == [s]
  {
    hide *;
    StatementEnds(s);
    SentencesOfText(s);
    OneSentence(Statement, s);
  }

  lemma SpaceTrimmed(gap: string, rest: string)
    requires gap != "" && AllSpace(gap)
    ensures var n := SkipSpace(rest, 0);
      && gap + rest == gap + rest[..n] + rest[n..] && gap + rest[..n] != "" && AllSpace(gap + rest[..n])
      && (rest[n..] == "" || !IsSpace(rest[n..][0]))
  {
    hide IsSpace;
  }

  /** Two complete sentences at the start of a text are its first two sentences, whatever follows. */
  lemma TwoSentences(a: string, g: string, b: string, g': string, rest: string)
    requires Complete(a) && g != "" && AllSpace(g) && Complete(b) && !IsSpace(b[0]) && g' != "" && AllSpace(g')
    ensures Sentences(a + g + b + g' + rest) == [a, b] + Sentences(rest[SkipSpace(rest, 0)..])
  {
    hide *;
    CompleteStart(b);
    var n := SkipSpace(rest, 0);
    SpaceTrimmed(g', rest);
    var more := b + (g' + rest[..n]) + rest[n..];
    assert a + g + b + g' + rest == a + g + more;
    assert more != "" && more[0] == b[0];
    FirstSentence(a, g, more);
    FirstSentence(b, g' + rest[..n], rest[n..]);
  }

  lemma CompleteStart(s: string)
    requires Complete(s)
    ensures s != ""
  {
  }

  // ---------------------------------------------------------------- citations across two sentences

  /** Two sentences hold a citation together if and only if one of them does, or one reaches from one into the other. */
  lemma CitedTogether(a: string, b: string)
    requires NoneStraddles(FindAll(ENFORCER, a + " " + b, 0), |a|)
    ensures IsCited(a + " " + b) <==> IsCited(a) || IsCited(b)
  {
    hide FindAll;
    assert a + " " + b == a + (" " + b);
    FindAllConcat(ENFORCER, a, " " + b, 0);
    PlainPrefix(ENFORCER, " ", b, |a|);
    AnyBase(ENFORCER, b, |a| + 1);
  }

  /** Where a scan starts to count decides nothing. */
  lemma {:induction false} AnyBase(g: Grammar, s: string, base: nat)
    ensures FindAll(g, s, base) == [] <==> FindAll(g, s, 0) == []
    decreases |s|
  {
    hide MatchPrefix;
    if s != "" && MatchPrefix(g, s).None? {
      AnyBase(g, s[1..], base + 1);
      AnyBase(g, s[1..], 1);
    }
  }

  lemma PlainThenSentence(a: string, b: string)
    requires '[' !in a
    ensures IsCited(a + " " + b) <==> IsCited(b)
  {
    hide FindAll;
    PlainPrefix(ENFORCER, a + " ", b, 0);
    AnyBase(ENFORCER, b, |a| + 1);
  }

  // ---------------------------------------------------------------- verdicts

  lemma UnsourcedFirst(pat: Patterns, sentences: seq<string>)
    requires |sentences| >= 2 && pat.numbers(sentences[0]) != [] && !IsCited(sentences[0] + " " + sentences[1])
    ensures !NumbersSourced(pat, sentences)
    ensures ShowNumbers(pat.numbers(sentences[0]), sentences[0]) <= Unsourced(pat, sentences, 0)
  {
    hide IsCited, ShowNumbers;
    assert Context(sentences, 0) == sentences[0] + " " + sentences[1];
  }

  /**
   * A number in a first sentence fails the check when neither that sentence nor the next holds a citation and
   * none reaches across, whatever stands in the rest of the text.
   */
  lemma UnsourcedNumberFails(u: Unicode, pat: Patterns, exact: string -> bool, semantic: string -> bool,
                             a: string, g: string, b: string, g': string, rest: string)
    requires Complete(a) && g != "" && AllSpace(g) && Complete(b) && !IsSpace(b[0]) && g' != "" && AllSpace(g')
    requires pat.numbers(a) != [] && !IsCited(a) && !IsCited(b)
    requires NoneStraddles(FindAll(ENFORCER, a + " " + b, 0), |a|)
    ensures var content := a + g + b + g' + rest;
      && !NumbersSourced(pat, Sentences(content))
      && ShowNumbers(pat.numbers(a), a) <= Unsourced(pat, Sentences(content), 0)
      && !Acceptable(u, pat, exact, semantic, content)
  {
    hide *;
    var content := a + g + b + g' + rest;
    TwoSentences(a, g, b, g', rest);
    CitedTogether(a, b);
    UnsourcedFirst(pat, Sentences(content));
    if Acceptable(u, pat, exact, semantic, content) {
      AcceptableNumbers(u, pat, exact, semantic, content);
    }
  }

  lemma AcceptableNumbers(u: Unicode, pat: Patterns, exact: string -> bool, semantic: string -> bool, content: string)
    requires Acceptable(u, pat, exact, semantic, content)
    ensures NumbersSourced(pat, Sentences(content))
  {
    hide Coverage, Claims, AllCitations, FindAttempts, Missing, FindAll, Sentences, NumbersSourced, IsSpeculation,
      IsUnlabelled;
  }

  /** With two sentences, the citation in the second sources the numbers of both. */
  lemma TwoSentencesSourced(pat: Patterns, a: string, g: string, b: string)
    requires Complete(a) && g != "" && AllSpace(g) && b != "" && NoInnerEnd(b) && !IsSpace(b[0]) && '[' !in a
    ensures NumbersSourced(pat, Sentences(a + g + b))
       <==> (pat.numbers(a) == [] && pat.numbers(b) == []) || IsCited(b)
  {
    hide IsCited, Sentences, IsSpace, AllSpace, NoInnerEnd;
    FirstSentence(a, g, b);
    OnlySentence(b);
    PlainThenSentence(a, b);
    var ss := Sentences(a + g + b);
    assert ss == [a, b];
    assert Context(ss, 0) == a + " " + b && Context(ss, 1) == b + "" == b;
  }

  // ---------------------------------------------------------------- all sentences of a text

  /** Sentences that a text is made of: visible at the start, all but the last complete. */
  predicate InTurn(ss: seq<string>) {
    && (forall i :: 0 <= i < |ss| ==> ss[i] != "" && !IsSpace(ss[i][0]) && NoInnerEnd(ss[i]))
    && forall i :: 0 <= i < |ss| - 1 ==> Complete(ss[i])
  }

  lemma InTurnMeans(ss: seq<string>)
    requires InTurn(ss)
    ensures AreSentences(Statement, ss)
  {
    hide IsSpace, EndsSentence, NoInnerEnd, NoBreak;
    forall i | 0 <= i < |ss|
      ensures ss[i] != "" && !IsSpace(ss[i][0]) && NoBreak(Statement, ss[i])
      ensures i < |ss| - 1 ==> EndsSentence(Statement, ss[i][|ss[i]| - 1])
    {
      StatementEnds(ss[i]);
    }
  }

  lemma SentencesInTurn(gap: string, ss: seq<string>)
    requires gap != "" && AllSpace(gap) && ss != [] && InTurn(ss)
    ensures Sentences(Join(gap, ss)) == ss
  {
    hide *;
    InTurnMeans(ss);
    SentencesSplit(Statement, gap, ss);
    SentencesOfText(Join(gap, ss));
  }

  /** There is a citation in the text. */
  ghost predicate HasCitation(s: string) {
    exists i :: 0 <= i < |s| && MatchPrefix(ENFORCER, s[i..]).Some?
  }

  lemma {:induction false} CitedExact(s: string)
    ensures IsCited(s) <==> HasCitation(s)
    decreases |s|
  {
    hide MatchPrefix;
    if s != "" {
      assert s[0..] == s;
      if MatchPrefix(ENFORCER, s).None? {
        CitedExact(s[1..]);
        AnyBase(ENFORCER, s[1..], 1);
        assert forall i :: 1 <= i < |s| ==> s[1..][i - 1..] == s[i..];
        if i :| 0 <= i < |s[1..]| && MatchPrefix(ENFORCER, s[1..][i..]).Some? {
          assert MatchPrefix(ENFORCER, s[i + 1..]).Some?;
        }
      }
    }
  }

  /** Each number of the `i`-th sentence has a citation beside it. */
  ghost predicate Sourced(pat: Patterns, ss: seq<string>, i: nat)
    requires i < |ss|
  {
    pat.numbers(ss[i]) != [] ==> HasCitation(if i + 1 < |ss| then ss[i] + " " + ss[i + 1] else ss[i])
  }

  /** A text of sentences passes the number check if and only if each number has a citation beside it. */
  lemma NumbersOfText(pat: Patterns, gap: string, ss: seq<string>)
    requires gap != "" && AllSpace(gap) && ss != [] && InTurn(ss)
    ensures NumbersSourced(pat, Sentences(Join(gap, ss))) <==> forall i :: 0 <= i < |ss| ==> Sourced(pat, ss, i)
  {
    hide Sentences, IsCited, HasCitation, Join, InTurn;
    SentencesInTurn(gap, ss);
    forall i | 0 <= i < |ss| ensures Sourced(pat, ss, i) <==> pat.numbers(ss[i]) == [] || IsCited(Context(ss, i)) {
      CitedExact(Context(ss, i));
      ContextIs(ss, i);
    }
  }

  lemma ContextIs(ss: seq<string>, i: nat)
    requires i < |ss|
    ensures Context(ss, i) == if i + 1 < |ss| then ss[i] + " " + ss[i + 1] else ss[i]
  {
    assert ss[i] + "" == ss[i];
    assert i + 1 < |ss| ==> ss[i] + (" " + ss[i + 1]) == ss[i] + " " + ss[i + 1];
  }

  lemma AllOf(f: string -> bool, ss: seq<string>)
    ensures (forall s :: s in ss ==> f(s)) <==> forall i :: 0 <= i < |ss| ==> f(ss[i])
  {
  }

  /** It passes the check on speculation if and only if each speculative sentence has a citation of its own. */
  lemma SpeculationOfText(pat: Patterns, gap: string, ss: seq<string>)
    requires gap != "" && AllSpace(gap) && ss != [] && InTurn(ss)
    ensures (forall s :: s in Sentences(Join(gap, ss)) ==> !IsSpeculation(pat, s))
       <==> forall i :: 0 <= i < |ss| && pat.speculation(ss[i]) ==> HasCitation(ss[i])
  {
    hide Sentences, IsCited, HasCitation, Join, InTurn;
    SentencesInTurn(gap, ss);
    AllOf(s => !IsSpeculation(pat, s), ss);
    forall i | 0 <= i < |ss| ensures IsCited(ss[i]) <==> HasCitation(ss[i]) {
      CitedExact(ss[i]);
    }
  }

  lemma {:induction false} ContainsExact(s: string, part: string, i: nat)
    requires i <= |s|
    ensures Contains(s, part, i) <==> exists k :: i <= k <= |s| && part <= s[k..]
    decreases |s| - i
  {
    if i < |s| {
      ContainsExact(s, part, i + 1);
    }
  }

  /** And the check on inference if and only if each inferring sentence says what it was inferred from. */
  lemma InferenceOfText(pat: Patterns, gap: string, ss: seq<string>)
    requires gap != "" && AllSpace(gap) && ss != [] && InTurn(ss)
    ensures (forall s :: s in Sentences(Join(gap, ss)) ==> !IsUnlabelled(pat, s))
       <==> forall i :: 0 <= i < |ss| && pat.inference(ss[i]) ==>
              exists k :: 0 <= k <= |pat.lower(ss[i])| && "(inferred from" <= pat.lower(ss[i])[k..]
  {
    hide Sentences, Contains, Join, InTurn;
    SentencesInTurn(gap, ss);
    AllOf(s => !IsUnlabelled(pat, s), ss);
    forall i | 0 <= i < |ss|
      ensures Contains(pat.lower(ss[i]), "(inferred from", 0)
         <==> exists k :: 0 <= k <= |pat.lower(ss[i])| && "(inferred from" <= pat.lower(ss[i])[k..]
    {
      ContainsExact(pat.lower(ss[i]), "(inferred from", 0);
    }
  }

  /** A report on a number quotes it, and up to 80 characters of its sentence. */
  predicate ReportsNumber(item: string, number: string, sentence: string) {
    item == "\"" + number + "\" in: \"" + (if |sentence| < 80 then sentence else sentence[..80]) + "\""
  }

  /** What the number check says of a sentence without a citation: one report for each number, in order. */
  lemma NumberReports(numbers: seq<string>, sentence: string, k: nat)
    requires k < |numbers|
    ensures |ShowNumbers(numbers, sentence)| == |numbers|
    ensures ReportsNumber(ShowNumbers(numbers, sentence)[k], numbers[k], sentence)
  {
    var shown := if |sentence| < 80 then sentence else sentence[..80];
    assert sentence[..Min(80, |sentence|)] == shown;
    assert ShowNumbers(numbers, sentence)[k] == "\"" + numbers[k] + "\" in: \"" + shown + "\"";
  }

  /** The sentences reported by the other two checks are cut at 100 characters. */
  lemma ShortenedReports(ss: seq<string>, k: nat)
    requires k < |ss|
    ensures |Shortened(ss)| == |ss|
    ensures Shortened(ss)[k] == if |ss[k]| < 100 then ss[k] else ss[k][..100]
  {
    assert ss[k][..|ss[k]|] == ss[k];
  }
}
