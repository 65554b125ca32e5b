/** The citation enforcer's verdict: citation coverage, quote lookups, status. */
module Enforcer {
  import opened Text
  import opened Splitting
  import opened CitationGrammar
  import opened CitationAttempts
  import Lookup = QuoteLookup

  // ---------------------------------------------------------------- paragraphs

  /** `content.split("\n\n")` from position `i` of the piece that starts the text. */
  function SplitBlank(s: string, i: nat): seq<string>
    requires i <= |s|
    decreases |s|, |s| - i
  {
    if i + 1 >= |s| then [s]
    else if s[i] == '\n' && s[i + 1] == '\n' then [s[..i]] + SplitBlank(s[i + 2..], 0)
    else SplitBlank(s, i + 1)
  }

  function StripNonBlank(pieces: seq<string>): seq<string> {
    if pieces == [] then []
    else (if Strip(pieces[0]) == "" then [] else [Strip(pieces[0])]) + StripNonBlank(pieces[1..])
  }

  function Paragraphs(content: string): seq<string> {
    StripNonBlank(SplitBlank(content, 0))
  }

  // Python's Unicode tables for `isdigit` and `\w` are parameters.
  datatype Unicode = Unicode(digit: char -> bool, word: char -> bool)

  const VERBS: seq<string> := ["is", "are", "was", "were", "has", "have", "had"]

  predicate HasDigit(u: Unicode, p: string) {
    exists i :: 0 <= i < |p| && u.digit(p[i])
  }

  predicate VerbAt(u: Unicode, p: string, i: nat, verb: string)
    requires i <= |p|
  {
    && verb <= p[i..]
    && (i == 0 || !u.word(p[i - 1]))
    && (i + |verb| == |p| || !u.word(p[i + |verb|]))
  }

  predicate HasVerb(u: Unicode, p: string) {
    exists i, k :: 0 <= i <= |p| && 0 <= k < |VERBS| && VerbAt(u, p, i, VERBS[k])
  }

  /** A verb counts where it stands as a word: no word character right before it or right behind it. */
  lemma HasVerbExact(u: Unicode, p: string)
    ensures HasVerb(u, p) <==> exists before, verb, after :: VerbBetween(u, p, before, verb, after)
  {
    hide VerbBetween, VerbAt;
    if HasVerb(u, p) {
      var i, k :| 0 <= i <= |p| && 0 <= k < |VERBS| && VerbAt(u, p, i, VERBS[k]);
      VerbIsBetween(u, p, i, k);
    }
    if before, verb, after :| VerbBetween(u, p, before, verb, after) {
      BetweenIsVerb(u, p, before, verb, after);
    }
  }

  ghost predicate VerbBetween(u: Unicode, p: string, before: string, verb: string, after: string) {
    && p == before + verb + after
    && verb in {"is", "are", "was", "were", "has", "have", "had"}
    && (before != "" ==> !u.word(before[|before| - 1]))
    && (after != "" ==> !u.word(after[0]))
  }

  lemma VerbIsBetween(u: Unicode, p: string, i: nat, k: nat)
    requires i <= |p| && k < |VERBS| && VerbAt(u, p, i, VERBS[k])
    ensures VerbBetween(u, p, p[..i], VERBS[k], p[i + |VERBS[k]|..])
  {
    assert p == p[..i] + p[i..] && p[i..] == VERBS[k] + p[i + |VERBS[k]|..];
  }

  lemma BetweenIsVerb(u: Unicode, p: string, before: string, verb: string, after: string)
    requires VerbBetween(u, p, before, verb, after)
    ensures HasVerb(u, p)
  {
    assert p[|before|..] == verb + after;
    assert VERBS[0] == "is" && VERBS[1] == "are" && VERBS[2] == "was" && VERBS[3] == "were";
    assert VERBS[4] == "has" && VERBS[5] == "have" && VERBS[6] == "had";
    var k :| 0 <= k < 7 && VERBS[k] == verb;
    assert VerbAt(u, p, |before|, VERBS[k]);
  }

  predicate IsCited(p: string) {
    FindAll(ENFORCER, p, 0) != []
  }

  predicate IsClaim(u: Unicode, p: string) {
    HasDigit(u, p) || HasVerb(u, p)
  }

  function Filter(f: string -> bool, ps: seq<string>): seq<string> {
    if ps == [] then [] else (if f(ps[0]) then [ps[0]] else []) + Filter(f, ps[1..])
  }

  function Claims(u: Unicode, content: string): seq<string> {
    Filter(p => IsClaim(u, p), Paragraphs(content))
  }

  function DigitClaims(u: Unicode, content: string): seq<string> {
    Filter(p => HasDigit(u, p), Paragraphs(content))
  }

  function Cited(ps: seq<string>): seq<string> {
    Filter(IsCited, ps)
  }

  function Uncited(ps: seq<string>): seq<string> {
    Filter(p => !IsCited(p), ps)
  }

  /** Coverage is full when there is nothing to cite. */
  function Coverage(claims: seq<string>): real {
    if claims == [] then 1.0 else |Cited(claims)| as real / |claims| as real
  }

  // ---------------------------------------------------------------- coverage arithmetic

  lemma {:induction false} CitedOrNot(ps: seq<string>)
    ensures |Cited(ps)| + |Uncited(ps)| == |ps|
  {
    hide IsCited;
    if ps != [] {
      CitedOrNot(ps[1..]);
    }
  }

  lemma RatioAtLeast(a: int, n: int, x: real)
    requires n > 0
    ensures a as real / n as real >= x <==> a as real >= x * n as real
  {
    var r := a as real / n as real;
    assert r * n as real == a as real;
    assert r >= x ==> (r - x) * n as real >= 0.0;
    assert r < x ==> (x - r) * n as real > 0.0;
  }

  /** The coverage check passes exactly when at most one claim in twenty is uncited. */
  lemma CoverageThreshold(claims: seq<string>)
    ensures 0.0 <= Coverage(claims) <= 1.0
    ensures Coverage(claims) >= 0.95 <==> 20 * |Uncited(claims)| <= |claims|
    ensures Coverage(claims) == 1.0 <==> Uncited(claims) == []
  {
    CitedOrNot(claims);
    hide Cited, Uncited;
    var a, n := |Cited(claims)|, |claims|;
    if n > 0 {
      RatioAtLeast(a, n, 0.95);
      RatioAtLeast(a, n, 1.0);
      RatioAtLeast(a, n, 0.0);
      RatioAtMostOne(a, n);
    }
  }

  lemma RatioAtMostOne(a: int, n: int)
    requires 0 <= a <= n && n > 0
    ensures a as real / n as real <= 1.0
  {
    var r := a as real / n as real;
    assert r * n as real == a as real;
    assert r > 1.0 ==> (r - 1.0) * n as real > 0.0;
  }

  lemma {:induction false} UncitedDigitsAreClaims(u: Unicode, ps: seq<string>)
    ensures |Uncited(Filter(p => HasDigit(u, p), ps))| <= |Uncited(Filter(p => IsClaim(u, p), ps))|
    ensures |Filter(p => HasDigit(u, p), ps)| <= |Filter(p => IsClaim(u, p), ps)|
  {
    hide HasDigit, HasVerb, IsCited;
    if ps != [] {
      UncitedDigitsAreClaims(u, ps[1..]);
      UncitedCons(ps[0], Filter(p => HasDigit(u, p), ps[1..]));
      UncitedCons(ps[0], Filter(p => IsClaim(u, p), ps[1..]));
    }
  }

  lemma UncitedCons(p: string, rest: seq<string>)
    ensures Uncited([p] + rest) == (if IsCited(p) then [] else [p]) + Uncited(rest)
    ensures Uncited([] + rest) == Uncited(rest)
  {
    hide IsCited;
    assert ([p] + rest)[1..] == rest && [] + rest == rest;
  }

  // ---------------------------------------------------------------- the quote check

  datatype CheckResult = CheckResult(passed: bool, failedItems: seq<string>, paraphraseItems: seq<string>)

  // `quote_stripped[:60]`, in quotes and with an ellipsis.
  function Shown(quote: string): string {
    "\"" + quote[..Min(60, |quote|)] + "...\""
  }

  function FirstFive<T>(s: seq<T>): seq<T> {
    s[..Min(5, |s|)]
  }

  /** The quotes neither search finds, and those only the semantic one does. */
  function Missing(exact: string -> bool, semantic: string -> bool, cites: seq<Found>): seq<string> {
    if cites == [] then [] else
    var q := Strip(cites[0].cite.quote);
    (if !exact(q) && !semantic(q) then [Shown(q)] else []) + Missing(exact, semantic, cites[1..])
  }

  function Paraphrased(exact: string -> bool, semantic: string -> bool, cites: seq<Found>): seq<string> {
    if cites == [] then [] else
    var q := Strip(cites[0].cite.quote);
    (if !exact(q) && semantic(q) then [Shown(q)] else []) + Paraphrased(exact, semantic, cites[1..])
  }

  method CheckQuotesExistInRag(exact: string -> bool, semantic: string -> bool, content: string)
    returns (r: CheckResult)
    ensures var cites := FindAll(ENFORCER, content, 0);
      && r.passed == (Missing(exact, semantic, cites) == [])
      && r.failedItems == FirstFive(Missing(exact, semantic, cites))
      && r.paraphraseItems == FirstFive(Paraphrased(exact, semantic, cites))
  {
    hide FindAll, Strip, Shown, Missing, Paraphrased;
    var citations := FindAll(ENFORCER, content, 0);
    var notFound, paraphrased := [], [];
    NoQuotes(exact, semantic, citations);
    for i := 0 to |citations|
      invariant notFound + Missing(exact, semantic, citations[i..]) == Missing(exact, semantic, citations)
      invariant paraphrased + Paraphrased(exact, semantic, citations[i..]) == Paraphrased(exact, semantic, citations)
    {
      UnfoldQuotes(exact, semantic, citations, i);
      var quote := Strip(citations[i].cite.quote);
      if !exact(quote) {
        if semantic(quote) {
          paraphrased := paraphrased + [Shown(quote)];
        } else {
          notFound := notFound + [Shown(quote)];
        }
      }
    }
    r := CheckResult(notFound == [], FirstFive(notFound), FirstFive(paraphrased));
  }

  lemma UnfoldQuotes(exact: string -> bool, semantic: string -> bool, cites: seq<Found>, i: nat)
    requires i < |cites|
    ensures var q := Strip(cites[i].cite.quote);
      && Missing(exact, semantic, cites[i..])
        == (if !exact(q) && !semantic(q) then [Shown(q)] else []) + Missing(exact, semantic, cites[i + 1..])
      && Paraphrased(exact, semantic, cites[i..])
        == (if !exact(q) && semantic(q) then [Shown(q)] else []) + Paraphrased(exact, semantic, cites[i + 1..])
  {
    hide Strip, Shown;
    assert cites[i..][1..] == cites[i + 1..];
  }

  lemma NoQuotes(exact: string -> bool, semantic: string -> bool, cites: seq<Found>)
    ensures cites[0..] == cites
    ensures Missing(exact, semantic, cites[|cites|..]) == [] && Paraphrased(exact, semantic, cites[|cites|..]) == []
  {
  }

  lemma {:induction false} NothingMissing(exact: string -> bool, semantic: string -> bool, cites: seq<Found>)
    ensures Missing(exact, semantic, cites) == []
       <==> forall i :: 0 <= i < |cites| ==> exact(Strip(cites[i].cite.quote)) || semantic(Strip(cites[i].cite.quote))
  {
    hide Strip, Shown;
    if cites != [] {
      NothingMissing(exact, semantic, cites[1..]);
      assert forall i :: 1 <= i < |cites| ==> cites[i] == cites[1..][i - 1];
    }
  }

  // Up to 60 characters of the quote, in quote marks and with three dots.
  predicate Reports(item: string, quote: string) {
    item == "\"" + (if |quote| < 60 then quote else quote[..60]) + "...\""
  }

  lemma ShownReports(quote: string)
    ensures forall s :: s == Shown(quote) <==> Reports(s, quote)
  {
    assert quote[..|quote|] == quote;
  }

  /** Every quote that is not found word for word is either missing or a paraphrase, and none is both. */
  lemma {:induction false} QuotesAccounted(exact: string -> bool, semantic: string -> bool, cites: seq<Found>)
    ensures |Missing(exact, semantic, cites)| + |Paraphrased(exact, semantic, cites)|
         == |NotExact(exact, cites)|
    ensures forall s :: s in Paraphrased(exact, semantic, cites) <==>
      exists q :: q in NotExact(exact, cites) && semantic(q) && Reports(s, q)
    ensures forall s :: s in Missing(exact, semantic, cites) <==>
      exists q :: q in NotExact(exact, cites) && !semantic(q) && Reports(s, q)
  {
    hide Strip, Shown, Reports;
    if cites != [] {
      ShownReports(Strip(cites[0].cite.quote));
      QuotesAccounted(exact, semantic, cites[1..]);
    }
  }

  function NotExact(exact: string -> bool, cites: seq<Found>): seq<string> {
    if cites == [] then [] else
    var q := Strip(cites[0].cite.quote);
    (if exact(q) then [] else [q]) + NotExact(exact, cites[1..])
  }

  // Every quote of the content, as it is looked up.
  function Quotes(content: string): (quotes: seq<string>)
    ensures |quotes| == |FindAll(ENFORCER, content, 0)|
  {
    var cites := FindAll(ENFORCER, content, 0);
    seq(|cites|, i requires 0 <= i < |cites| => Strip(cites[i].cite.quote))
  }

  /** The exact lookup answers as the retriever over this index does under the given hash. */
  ghost predicate LooksUp(exact: string -> bool, crc: string -> nat, points: seq<Lookup.Point>, tenant: string,
                          coverage: string) {
    forall q :: exact(q) <==> Lookup.SomeChunkMeets(crc, points, q, tenant, coverage)
  }

  /** No hash and no failure of the semantic search can charge the content with a hallucination. */
  ghost predicate NeverCharged(points: seq<Lookup.Point>, content: string, tenant: string, coverage: string) {
    forall crc: string -> nat, exact: string -> bool, semantic: string -> bool ::
      LooksUp(exact, crc, points, tenant, coverage) ==> Missing(exact, semantic, FindAll(ENFORCER, content, 0)) == []
  }

  lemma QuotesPass(exact: string -> bool, semantic: string -> bool, content: string)
    ensures Missing(exact, semantic, FindAll(ENFORCER, content, 0)) == []
       <==> forall i :: 0 <= i < |Quotes(content)| ==> exact(Quotes(content)[i]) || semantic(Quotes(content)[i])
  {
    hide FindAll, Strip, Missing;
    NothingMissing(exact, semantic, FindAll(ENFORCER, content, 0));
    assert forall i :: 0 <= i < |Quotes(content)| ==>
      Quotes(content)[i] == Strip(FindAll(ENFORCER, content, 0)[i].cite.quote);
  }

  /**
   * From chunk text to verdict: an output can never be charged with a hallucination if and only if each of
   * its quotes has a token in common with some searchable chunk of the coverage.
   */
  lemma VerbatimOutputPasses(points: seq<Lookup.Point>, content: string, tenant: string, coverage: string)
    ensures NeverCharged(points, content, tenant, coverage)
       <==> forall i :: 0 <= i < |Quotes(content)| ==>
              Lookup.SomeChunkShares(points, Quotes(content)[i], tenant, coverage)
  {
    hide FindAll, Quotes, Missing, Lookup.SomeChunkMeets, Lookup.SomeChunkShares;
    if forall i :: 0 <= i < |Quotes(content)| ==> Lookup.SomeChunkShares(points, Quotes(content)[i], tenant, coverage) {
      forall crc: string -> nat, exact: string -> bool, semantic: string -> bool
        | LooksUp(exact, crc, points, tenant, coverage)
        ensures Missing(exact, semantic, FindAll(ENFORCER, content, 0)) == []
      {
        forall i | 0 <= i < |Quotes(content)| ensures exact(Quotes(content)[i]) {
          Lookup.FoundIffShared(points, Quotes(content)[i], tenant, coverage);
        }
        QuotesPass(exact, semantic, content);
      }
    }
    if NeverCharged(points, content, tenant, coverage) {
      forall i | 0 <= i < |Quotes(content)|
        ensures Lookup.SomeChunkShares(points, Quotes(content)[i], tenant, coverage)
      {
        forall crc: string -> nat
          ensures Lookup.SomeChunkMeets(crc, points, Quotes(content)[i], tenant, coverage)
        {
          UnchargedIsFound(points, content, tenant, coverage, crc, i);
        }
        Lookup.FoundIffShared(points, Quotes(content)[i], tenant, coverage);
      }
    }
  }

  lemma UnchargedIsFound(points: seq<Lookup.Point>, content: string, tenant: string, coverage: string,
                         crc: string -> nat, i: nat)
    requires NeverCharged(points, content, tenant, coverage) && i < |Quotes(content)|
    ensures Lookup.SomeChunkMeets(crc, points, Quotes(content)[i], tenant, coverage)
  {
    hide FindAll, Quotes, Missing, Lookup.SomeChunkMeets;
    var exact: string -> bool := q => Lookup.SomeChunkMeets(crc, points, q, tenant, coverage);
    var semantic: string -> bool := _ => false;
    assert LooksUp(exact, crc, points, tenant, coverage);
    QuotesPass(exact, semantic, content);
  }

  // ---------------------------------------------------------------- the checks on patterns

  // What the patterns the checks look for find; only how they are used is modelled.
  datatype Patterns = Patterns(
    numbers: string -> seq<string>, speculation: string -> bool, inference: string -> bool, lower: string -> string)

  function CheckQuoteFormat(content: string): (r: CheckResult)
    ensures r.passed <==> AllCitations(FindAttempts(content))
    ensures |r.failedItems| <= 5 && (r.passed <==> r.failedItems == []) && r.paraphraseItems == []
    ensures forall a :: a in r.failedItems ==> a in FindAttempts(content) && !IsCitation(a)
  {
    FilterSome(a => !IsCitation(a), FindAttempts(content));
    var malformed := Filter(a => !IsCitation(a), FindAttempts(content));
    FilterNothing(a => !IsCitation(a), FindAttempts(content));
    CheckResult(malformed == [], FirstFive(malformed), [])
  }

  lemma {:induction false} FilterNothing(f: string -> bool, ps: seq<string>)
    ensures Filter(f, ps) == [] <==> forall p :: p in ps ==> !f(p)
  {
    if ps != [] {
      FilterNothing(f, ps[1..]);
      assert ps == [ps[0]] + ps[1..];
    }
  }

  lemma {:induction false} FilterSome(f: string -> bool, ps: seq<string>)
    ensures forall p :: p in Filter(f, ps) <==> p in ps && f(p)
  {
    if ps != [] {
      FilterSome(f, ps[1..]);
      assert ps == [ps[0]] + ps[1..];
    }
  }

  /** The reports of a check are cut at five, those of the last two checks at three. */
  lemma FirstReports(items: seq<string>)
    ensures FirstFive(items) == if |items| < 5 then items else items[..5]
    ensures FirstThree(items) == if |items| < 3 then items else items[..3]
  {
    assert items[..|items|] == items;
  }

  function Sentences(content: string): seq<string> {
    SpansTile(Statement, content, 0, 0);
    TilesWithin(content, 0, 0, 1, Spans(Statement, content, 0, 0));
    Pieces(content, Spans(Statement, content, 0, 0))
  }

  // A sentence together with the next one.
  function Context(sentences: seq<string>, i: nat): string
    requires i < |sentences|
  {
    sentences[i] + if i + 1 < |sentences| then " " + sentences[i + 1] else ""
  }

  /** Every sentence with a number has a citation, in it or in the next sentence. */
  predicate NumbersSourced(pat: Patterns, sentences: seq<string>) {
    forall i :: 0 <= i < |sentences| && pat.numbers(sentences[i]) != [] ==> IsCited(Context(sentences, i))
  }

  function ShowNumbers(numbers: seq<string>, sentence: string): (items: seq<string>)
    ensures |items| == |numbers|
  {
    seq(|numbers|, k requires 0 <= k < |numbers| =>
      "\"" + numbers[k] + "\" in: \"" + sentence[..Min(80, |sentence|)] + "\"")
  }

  /** The reports on the sentences from the `i`-th on: one for each number without a citation. */
  function Unsourced(pat: Patterns, sentences: seq<string>, i: nat): seq<string>
    requires i <= |sentences|
    decreases |sentences| - i
  {
    if i == |sentences| then [] else
    (if IsCited(Context(sentences, i)) then [] else ShowNumbers(pat.numbers(sentences[i]), sentences[i]))
      + Unsourced(pat, sentences, i + 1)
  }

  lemma {:induction false} NothingUnsourced(pat: Patterns, sentences: seq<string>, i: nat)
    requires i <= |sentences|
    ensures Unsourced(pat, sentences, i) == []
       <==> forall k :: i <= k < |sentences| && pat.numbers(sentences[k]) != [] ==> IsCited(Context(sentences, k))
    decreases |sentences| - i
  {
    hide IsCited, Context;
    if i < |sentences| {
      NothingUnsourced(pat, sentences, i + 1);
    }
  }

  lemma UnfoldUnsourced(pat: Patterns, sentences: seq<string>, i: nat)
    requires i < |sentences|
    ensures var numbers := pat.numbers(sentences[i]);
      Unsourced(pat, sentences, i)
        == (if numbers != [] && !IsCited(Context(sentences, i)) then ShowNumbers(numbers, sentences[i]) else [])
           + Unsourced(pat, sentences, i + 1)
  {
    hide IsCited, Context;
  }

  lemma LastUnsourced(pat: Patterns, sentences: seq<string>)
    ensures Unsourced(pat, sentences, |sentences|) == []
  {
  }

  lemma NumbersSourcedIff(pat: Patterns, sentences: seq<string>)
    ensures NumbersSourced(pat, sentences) <==> Unsourced(pat, sentences, 0) == []
  {
    hide IsCited, Context, Unsourced;
    NothingUnsourced(pat, sentences, 0);
  }

  method CheckNoUnsourcedNumbers(pat: Patterns, content: string) returns (r: CheckResult)
    ensures r.passed <==> NumbersSourced(pat, Sentences(content))
    ensures r.failedItems == FirstFive(Unsourced(pat, Sentences(content), 0))
  {
    hide *;
    var sentences := Sentences(content);
    var unsourced := [];
    LastUnsourced(pat, sentences);
    for i := 0 to |sentences|
      invariant unsourced + Unsourced(pat, sentences, i) == Unsourced(pat, sentences, 0)
    {
      UnfoldUnsourced(pat, sentences, i);
      var numbers := pat.numbers(sentences[i]);
      if numbers != [] && !IsCited(Context(sentences, i)) {
        unsourced := unsourced + ShowNumbers(numbers, sentences[i]);
      }
    }
    assert unsourced + [] == unsourced;
    NumbersSourcedIff(pat, sentences);
    r := CheckResult(unsourced == [], FirstFive(unsourced), []);
  }

  predicate Contains(s: string, part: string, i: nat)
    requires i <= |s|
    decreases |s| - i
  {
    part <= s[i..] || (i < |s| && Contains(s, part, i + 1))
  }

  predicate IsSpeculation(pat: Patterns, s: string) {
    pat.speculation(s) && !IsCited(s)
  }

  predicate IsUnlabelled(pat: Patterns, s: string) {
    pat.inference(s) && !Contains(pat.lower(s), "(inferred from", 0)
  }

  // `sentence[:100]`
  function Shortened(sentences: seq<string>): (short: seq<string>)
    ensures |short| == |sentences|
  {
    seq(|sentences|, i requires 0 <= i < |sentences| => sentences[i][..Min(100, |sentences[i]|)])
  }

  function FirstThree<T>(s: seq<T>): seq<T> {
    s[..Min(3, |s|)]
  }

  // The loop both remaining checks run over the sentences.
  method Violations(violates: string -> bool, content: string) returns (violations: seq<string>)
    ensures violations == Shortened(Filter(violates, Sentences(content)))
  {
    hide Sentences, Filter;
    var sentences := Sentences(content);
    violations := [];
    ghost var found: seq<string> := [];
    FilterRest(violates, sentences);
    for i := 0 to |sentences|
      invariant Filter(violates, sentences) == found + Filter(violates, sentences[i..])
      invariant violations == Shortened(found)
    {
      FilterCons(violates, sentences, i);
      if violates(sentences[i]) {
        found := found + [sentences[i]];
        violations := violations + [sentences[i][..Min(100, |sentences[i]|)]];
      }
    }
    assert found + [] == found;
  }

  lemma FilterRest(f: string -> bool, ps: seq<string>)
    ensures ps[0..] == ps && Filter(f, ps[|ps|..]) == []
  {
  }

  lemma FilterCons(f: string -> bool, ps: seq<string>, i: nat)
    requires i < |ps|
    ensures Filter(f, ps[i..]) == (if f(ps[i]) then [ps[i]] else []) + Filter(f, ps[i + 1..])
  {
    assert ps[i..][1..] == ps[i + 1..];
  }

  method CheckNoFutureSpeculation(pat: Patterns, content: string) returns (r: CheckResult)
    ensures r.passed <==> forall s :: s in Sentences(content) ==> !IsSpeculation(pat, s)
    ensures r.failedItems == FirstThree(Shortened(Filter(s => IsSpeculation(pat, s), Sentences(content))))
  {
    hide Sentences, Filter, IsSpeculation;
    var violations := Violations(s => IsSpeculation(pat, s), content);
    FilterNothing(s => IsSpeculation(pat, s), Sentences(content));
    r := CheckResult(violations == [], FirstThree(violations), []);
  }

  method CheckInferenceLabeling(pat: Patterns, content: string) returns (r: CheckResult)
    ensures r.passed <==> forall s :: s in Sentences(content) ==> !IsUnlabelled(pat, s)
    ensures r.failedItems == FirstThree(Shortened(Filter(s => IsUnlabelled(pat, s), Sentences(content))))
  {
    hide Sentences, Filter, IsUnlabelled;
    var unlabeled := Violations(s => IsUnlabelled(pat, s), content);
    FilterNothing(s => IsUnlabelled(pat, s), Sentences(content));
    r := CheckResult(unlabeled == [], FirstThree(unlabeled), []);
  }

  // ---------------------------------------------------------------- the verdict

  datatype Status = Approved | Partial | Failed
  datatype Verdict = Verdict(approved: bool, status: Status, coverage: real, hallucinationCount: nat)

  /** What the six checks ask of an output. */
  ghost predicate Acceptable(u: Unicode, pat: Patterns, exact: string -> bool, semantic: string -> bool,
                             content: string) {
    && Coverage(Claims(u, content)) >= 0.95
    && AllCitations(FindAttempts(content))
    && Missing(exact, semantic, FindAll(ENFORCER, content, 0)) == []
    && NumbersSourced(pat, Sentences(content))
    && (forall s :: s in Sentences(content) ==> !IsSpeculation(pat, s))
    && (forall s :: s in Sentences(content) ==> !IsUnlabelled(pat, s))
  }

  method Validate(u: Unicode, pat: Patterns, exact: string -> bool, semantic: string -> bool, content: string)
    returns (v: Verdict)
    ensures v.approved <==> Acceptable(u, pat, exact, semantic, content)
    ensures v.status == if v.approved then Approved else if v.coverage >= 0.8 then Partial else Failed
    ensures v.coverage == Coverage(DigitClaims(u, content))
    ensures v.hallucinationCount == Min(5, |Missing(exact, semantic, FindAll(ENFORCER, content, 0))|)
  {
    hide Coverage, Claims, DigitClaims, Missing, Paraphrased, FindAll, Sentences, CheckQuoteFormat;
    var covered := Coverage(Claims(u, content)) >= 0.95;
    var format := CheckQuoteFormat(content);
    var quotes := CheckQuotesExistInRag(exact, semantic, content);
    var numbers := CheckNoUnsourcedNumbers(pat, content);
    var speculation := CheckNoFutureSpeculation(pat, content);
    var inference := CheckInferenceLabeling(pat, content);
    var allPassed :=
      covered && format.passed && quotes.passed && numbers.passed && speculation.passed && inference.passed;
    var citationCov := Coverage(DigitClaims(u, content));
    var status := if allPassed then Approved else if citationCov >= 0.8 then Partial else Failed;
    v := Verdict(allPassed, status, citationCov, |quotes.failedItems|);
  }

  /**
   * What approval says about figures: the uncited paragraphs with digits are at most a twentieth of all
   * claim paragraphs, so with fewer than twenty of those the reported coverage is exactly 1.
   */
  lemma ApprovalBoundsFigures(u: Unicode, content: string)
    requires Coverage(Claims(u, content)) >= 0.95
    ensures 20 * |Uncited(DigitClaims(u, content))| <= |Claims(u, content)|
    ensures |Claims(u, content)| < 20 ==> Coverage(DigitClaims(u, content)) == 1.0
  {
    hide Coverage, Filter, Paragraphs;
    CoverageThreshold(Claims(u, content));
    UncitedDigitsAreClaims(u, Paragraphs(content));
    CoverageThreshold(DigitClaims(u, content));
  }
}
