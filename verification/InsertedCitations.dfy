/** Citations inserted from a search result: offered, printed into a note, read again and looked up. */
module InsertedCitations {
  import opened Text
  import opened CitationGrammar
  import opened CitationStreamProofs
  import opened SparseVectors
  import opened QuoteLookup
  import opened Enforcer

  const MAX_QUOTE_CHARS := 400

  // The quote the search endpoint offers for a chunk.
  function OfferedQuote(content: string): string {
    Strip(content)[..Min(MAX_QUOTE_CHARS, |Strip(content)|)]
  }

  // The citation the editor prints for it, and what the enforcer looks up when it reads that.
  function Inserted(doc: string, section: string, content: string): Citation {
    Citation(doc, section, OfferedQuote(content))
  }

  function LookedUp(c: Citation): string {
    Strip(AsRead(c).quote)
  }

  // ---------------------------------------------------------------- what is looked up is the start of the chunk

  lemma SliceAt(s: string, i: nat, part: string)
    requires i <= |s| && part <= s[i..]
    ensures s == s[..i] + part + s[i + |part|..]
  {
    assert s == s[..i] + s[i..];
    assert s[i..] == part + s[i..][|part|..];
    assert s[i..][|part|..] == s[i + |part|..];
  }

  lemma SkippedIsSpace(s: string)
    ensures AllSpace(s[..SkipSpace(s, 0)])
  {
    hide IsSpace;
  }

  lemma StrippedStart(content: string)
    ensures Strip(content) != "" ==> !IsSpace(Strip(content)[0])
    ensures Strip(content) <= content[SkipSpace(content, 0)..]
  {
    hide IsSpace;
  }

  // A start of a stripped text loses only its end when it is stripped again.
  lemma StripStart(content: string, start: string)
    requires start <= Strip(content)
    ensures Strip(start) <= start
  {
    hide IsSpace, TrimEnd;
    StrippedStart(content);
    SkipSpaceIs(start, 0, 0);
    assert start[0..] == start;
  }

  lemma PrefixOfPrefix(a: string, b: string, c: string)
    requires a <= b && b <= c
    ensures a <= c
  {
  }

  lemma LookedUpStarts(doc: string, section: string, content: string)
    ensures LookedUp(Inserted(doc, section, content)) <= content[SkipSpace(content, 0)..]
  {
    var offered, quote := OfferedQuote(content), ReadQuote(OfferedQuote(content));
    StrippedStart(content);
    assert offered <= Strip(content) && quote <= offered by {
      hide Strip, IndexOf;
    }
    assert LookedUp(Inserted(doc, section, content)) == Strip(quote) by {
      hide Strip, ReadQuote, OfferedQuote;
    }
    hide *;
    PrefixOfPrefix(quote, offered, Strip(content));
    StripStart(content, quote);
    PrefixOfPrefix(Strip(quote), quote, Strip(content));
    PrefixOfPrefix(Strip(quote), Strip(content), content[SkipSpace(content, 0)..]);
  }

  /** The text looked up for an inserted citation is a slice of the chunk with only whitespace before it. */
  lemma LookedUpIsSlice(doc: string, section: string, content: string) returns (before: string, after: string)
    ensures content == before + LookedUp(Inserted(doc, section, content)) + after && AllSpace(before)
  {
    hide *;
    var quote := LookedUp(Inserted(doc, section, content));
    var i := SkipSpace(content, 0);
    SkippedIsSpace(content);
    LookedUpStarts(doc, section, content);
    before, after := content[..i], content[i + |quote|..];
    SliceAt(content, i, quote);
  }

  // ---------------------------------------------------------------- when the promise holds

  /** In any text the citation is read, with its own label, and its quote is sure to be found. */
  ghost predicate PassesInserted(p: Point, c: Citation, tenant: string, coverage: string) {
    && (forall more :: MatchPrefix(ENFORCER, Print(c) + more) == Some(Match(AsRead(c), |Print(AsRead(c))|)))
    && SurelyFound(p, LookedUp(c), tenant, coverage)
  }

  /**
   * The citation inserted for a chunk passes exactly when what is read of it is printable (a readable label, and
   * ten characters before the first quote mark of the quote) and a token of the chunk survives where it ends: at
   * that quote mark or at the 400 character limit.
   */
  lemma InsertedPassesIff(p: Point, doc: string, section: string, before: string, after: string, tenant: string,
                          coverage: string)
    requires InScope(p.payload, tenant, coverage)
    requires p.content == before + LookedUp(Inserted(doc, section, p.content)) + after && AllSpace(before)
    ensures var c := Inserted(doc, section, p.content);
      PassesInserted(p, c, tenant, coverage) <==> Printable(AsRead(c)) && KeepsToken(LookedUp(c), after)
  {
    hide *;
    var c := Inserted(doc, section, p.content);
    SlicedShares(before, LookedUp(c), after);
    SurelyFoundIff(p, LookedUp(c), tenant, coverage);
    ReadInAnyText(c);
    PassesMeans(p, c, tenant, coverage);
  }

  lemma ReadInAnyText(c: Citation)
    ensures (forall more :: MatchPrefix(ENFORCER, Print(c) + more) == Some(Match(AsRead(c), |Print(AsRead(c))|)))
       <==> Printable(AsRead(c))
  {
    hide *;
    forall more
      ensures MatchPrefix(ENFORCER, Print(c) + more) == Some(Match(AsRead(c), |Print(AsRead(c))|))
         <==> Printable(AsRead(c))
    {
      InsertedIsRead(c, more);
    }
    InsertedIsRead(c, "");
    assert MatchPrefix(ENFORCER, Print(c) + "") == MatchPrefix(ENFORCER, Print(c) + "");
  }

  lemma PassesMeans(p: Point, c: Citation, tenant: string, coverage: string)
    ensures PassesInserted(p, c, tenant, coverage)
       <==> (&& (forall more :: MatchPrefix(ENFORCER, Print(c) + more) == Some(Match(AsRead(c), |Print(AsRead(c))|)))
             && SurelyFound(p, LookedUp(c), tenant, coverage))
  {
    hide MatchPrefix, Print, AsRead, LookedUp, SurelyFound;
  }

  // ---------------------------------------------------------------- what the quote check charges

  function QuotesOf(found: seq<Found>): (quotes: seq<string>)
    ensures |quotes| == |found|
  {
    seq(|found|, i requires 0 <= i < |found| => Strip(found[i].cite.quote))
  }

  lemma QuotesAnywhere(s: string, base: nat)
    ensures Quotes(s) == QuotesOf(FindAll(ENFORCER, s, base))
  {
    hide FindAll, Strip;
    FindAllShift(s, 0, base);
    var a, b := FindAll(ENFORCER, s, 0), FindAll(ENFORCER, s, base);
    assert |TrimAll(a)| == |a| && |TrimAll(b)| == |b|;
    forall i | 0 <= i < |a| ensures Strip(a[i].cite.quote) == Strip(b[i].cite.quote) {
      assert TrimAll(a)[i].quote == TrimAll(b)[i].quote;
    }
  }

  /** The quotes of a text are that of a citation at its start, if there is one, and those of the rest. */
  lemma QuotesUnfold(s: string)
    requires s != ""
    ensures Quotes(s) == match MatchPrefix(ENFORCER, s)
      case Some(m) => [Strip(m.cite.quote)] + Quotes(s[m.length..])
      case None => Quotes(s[1..])
  {
    hide MatchPrefix, Strip;
    var k := match MatchPrefix(ENFORCER, s) case Some(m) => m.length case None => 1;
    QuotesAnywhere(s[k..], k);
    QuotesAnywhere(s, 0);
  }

  ghost predicate AllShared(points: seq<Point>, quotes: seq<string>, tenant: string, coverage: string) {
    forall i :: 0 <= i < |quotes| ==> SomeChunkShares(points, quotes[i], tenant, coverage)
  }

  lemma AllSharedCons(points: seq<Point>, quote: string, rest: seq<string>, tenant: string, coverage: string)
    ensures AllShared(points, [quote] + rest, tenant, coverage)
       <==> SomeChunkShares(points, quote, tenant, coverage) && AllShared(points, rest, tenant, coverage)
  {
    hide SomeChunkShares;
    var all := [quote] + rest;
    assert all[0] == quote && forall i :: 0 <= i < |rest| ==> rest[i] == all[i + 1];
  }

  lemma ChargedIff(points: seq<Point>, content: string, tenant: string, coverage: string)
    ensures NeverCharged(points, content, tenant, coverage) <==> AllShared(points, Quotes(content), tenant, coverage)
  {
    hide Quotes, SomeChunkShares, NeverCharged;
    VerbatimOutputPasses(points, content, tenant, coverage);
  }

  /**
   * What the quote check can charge in a text that starts with a printed citation: what is read of its quote,
   * and the rest; or, when fewer than ten characters come before a quote mark, only what is read further on.
   */
  lemma InsertedCharge(points: seq<Point>, c: Citation, more: string, tenant: string, coverage: string)
    requires Labelled(c)
    ensures var text := Print(c) + more;
      NeverCharged(points, text, tenant, coverage) <==>
        if |ReadQuote(c.quote)| >= 10 then
          && SomeChunkShares(points, LookedUp(c), tenant, coverage)
          && NeverCharged(points, BehindRead(c, more), tenant, coverage)
        else NeverCharged(points, text[1..], tenant, coverage)
  {
    hide *;
    var text := Print(c) + more;
    PrintedIsSome(c, more);
    QuoteIsRead(c, more);
    PrintedAsRead(c, more);
    QuotesUnfold(text);
    ChargedIff(points, text, tenant, coverage);
    if |ReadQuote(c.quote)| >= 10 {
      LookedUpIs(c);
      assert text[|Print(AsRead(c))|..] == BehindRead(c, more);
      AllSharedCons(points, LookedUp(c), Quotes(BehindRead(c, more)), tenant, coverage);
      ChargedIff(points, BehindRead(c, more), tenant, coverage);
    } else {
      ChargedIff(points, text[1..], tenant, coverage);
    }
  }

  lemma PrintedIsSome(c: Citation, more: string)
    ensures Print(c) + more != ""
  {
  }

  lemma LookedUpIs(c: Citation)
    ensures LookedUp(c) == Strip(ReadQuote(c.quote))
  {
    hide Strip, ReadQuote;
  }

  /** A citation of which no token is read is charged as a hallucination, whatever is indexed. */
  lemma NoTokenIsCharged(points: seq<Point>, c: Citation, more: string, tenant: string, coverage: string)
    requires Labelled(c) && |ReadQuote(c.quote)| >= 10 && Tokenize(LookedUp(c)) == []
    ensures !NeverCharged(points, Print(c) + more, tenant, coverage)
  {
    InsertedCharge(points, c, more, tenant, coverage);
    hide LookedUp, Print, NeverCharged, InScope, Tokenize, BehindRead, ReadQuote, Labelled;
  }

  // ---------------------------------------------------------------- chunks it fails for

  lemma {:induction false} TrimEndPast(s: string, n: nat)
    requires n < |s| && !IsSpace(s[n])
    ensures n < |TrimEnd(s)|
  {
    hide IsSpace;
    if IsSpace(s[|s| - 1]) {
      TrimEndPast(s[..|s| - 1], n);
    }
  }

  /** A chunk that starts with plain text and a quote mark is offered so, and only that text is read. */
  lemma ReadToQuoteMark(start: string, rest: string)
    requires start != "" && !IsSpace(start[0]) && '"' !in start && |start| < 400
    ensures ReadQuote(OfferedQuote(start + "\"" + rest)) == start
  {
    var content, n := start + "\"" + rest, |start|;
    assert content[n] == '"' && content[0] == start[0];
    TrimEndPast(content, n);
    SkipSpaceIs(content, 0, 0);
    assert content[0..] == content;
    hide IsSpace, TrimEnd, SkipSpace;
    var offered := OfferedQuote(content);
    assert offered <= content && n < |offered|;
    assert offered[..n] == start && offered[n] == '"';
    assert forall k :: 0 <= k < n ==> offered[k] == start[k];
    IndexOfIs(offered, '"', 0, n);
  }

  lemma TrailingSpaceHasNoToken(text: string, after: string)
    requires AllSpace(after)
    ensures Tokenize(text + after) == Tokenize(text)
  {
    LowerSpace(after);
    hide *;
    TokenizeConcat(text, after);
    assert Tokenize(text) + [] == Tokenize(text);
  }

  lemma TokenizeStrip(s: string)
    ensures Tokenize(Strip(s)) == Tokenize(s)
  {
    SkippedIsSpace(s);
    StripIsTrimmed(s);
    hide *;
    var i := SkipSpace(s, 0);
    LeadingSpaceHasNoToken(s[..i], s[i..]);
    assert s == s[..i] + s[i..];
    TokenizeTrimEnd(s[i..]);
  }

  lemma StripIsTrimmed(s: string)
    ensures SkipSpace(s, 0) <= |s| && Strip(s) == TrimEnd(s[SkipSpace(s, 0)..])
  {
    hide SkipSpace, TrimEnd;
  }

  lemma TokenizeTrimEnd(s: string)
    ensures Tokenize(TrimEnd(s)) == Tokenize(s)
  {
    hide *;
    var r := TrimEnd(s);
    TrailingSpaceHasNoToken(r, s[|r|..]);
    assert s == r + s[|r|..];
  }

  /** A chunk that opens with stopwords and then quotes is offered, but its citation is charged. */
  lemma StopwordsThenQuoteMark(points: seq<Point>, doc: string, section: string, start: string, rest: string,
                               more: string, tenant: string, coverage: string)
    requires doc != "" && section != "" && ']' !in doc && ']' !in section
    requires 10 <= |start| < 400 && !IsSpace(start[0]) && '"' !in start && Tokenize(start) == []
    ensures !NeverCharged(points, Print(Inserted(doc, section, start + "\"" + rest)) + more, tenant, coverage)
  {
    hide IsSpace, Tokenize, Print, NeverCharged, OfferedQuote, ReadQuote, Strip;
    ReadToQuoteMark(start, rest);
    TokenizeStrip(start);
    NoTokenIsCharged(points, Inserted(doc, section, start + "\"" + rest), more, tenant, coverage);
  }

  lemma StopwordAlone(word: string, low: string)
    requires Lower(word) == low && low != "" && OnlyTokenChars(low) && IsStopword(low)
    ensures Tokenize(word) == []
  {
    OneRun(low);
    DropOne(low, []);
    assert [low] + [] == [low];
    hide IsStopword, IsTokenChar, Runs, Lower;
    assert Runs(low) == [low] && DropStopwords([]) == [];
  }

  lemma TokensAroundSpace(a: string, b: string)
    ensures Tokenize(a + " " + b) == Tokenize(a) + Tokenize(b)
  {
    OneSpace();
    hide *;
    TrailingSpaceHasNoToken(a, " ");
    LowerConcat(a, " ");
    EndsInSpace(Lower(a), Lower(b));
    TokenizeConcat(a + " ", b);
  }

  lemma OneSpace()
    ensures AllSpace(" ") && Lower(" ") == " "
  {
    LowerSpace(" ");
  }

  lemma EndsInSpace(a: string, b: string)
    ensures !CutsToken(a + " ", b)
  {
  }

  lemma OpeningStopwords()
    ensures Tokenize("In this and other ") == []
  {
    hide *;
    TokensAroundSpace("In this and other", "");
    TokensAroundSpace("In this and", "other");
    TokensAroundSpace("In this", "and");
    TokensAroundSpace("In", "this");
    StopwordOpenings();
    assert "In" + " " + "this" == "In this" && "In this" + " " + "and" == "In this and";
    assert "In this and" + " " + "other" == "In this and other";
    assert "In this and other" + " " + "" == "In this and other ";
  }

  lemma StopwordOpenings()
    ensures Tokenize("In") == [] && Tokenize("this") == [] && Tokenize("and") == [] && Tokenize("other") == []
    ensures Tokenize("") == []
  {
    hide *;
    LowerNothing();
    LowerIn();
    StopwordAlone("In", "in");
    LowerStopword("this");
    StopwordAlone("this", "this");
    LowerStopword("and");
    StopwordAlone("and", "and");
    LowerStopword("other");
    StopwordAlone("other", "other");
  }

  lemma LowerNothing()
    ensures Tokenize("") == []
  {
    LowerSpace("");
  }

  lemma LowerIn()
    ensures Lower("In") == "in" && OnlyTokenChars("in") && IsStopword("in")
  {
    assert "In"[1..] == "n" && "n"[1..] == "";
    assert Lower("n") == "n";
  }

  lemma LowerStopword(w: string)
    requires w == "this" || w == "and" || w == "other"
    ensures Lower(w) == w && w != "" && OnlyTokenChars(w) && IsStopword(w)
  {
    LowerToken(w);
  }

  predicate OnlyTokenChars(s: string) {
    forall i :: 0 <= i < |s| ==> IsTokenChar(s[i])
  }

  lemma {:induction false} LowerToken(s: string)
    requires OnlyTokenChars(s)
    ensures Lower(s) == s
  {
    if s != "" {
      LowerToken(s[1..]);
    }
  }

  const OPENING_STOPWORDS := "In this and other "

  lemma OpeningShape()
    ensures 10 <= |OPENING_STOPWORDS| < 400 && '"' !in OPENING_STOPWORDS
    ensures !IsSpace(OPENING_STOPWORDS[0])
    ensures Tokenize(OPENING_STOPWORDS) == []
  {
    OpeningStopwords();
    hide Tokenize;
  }

  lemma ItemLabel()
    ensures "10-K" != "" && "Item 1A" != "" && ']' !in "10-K" && ']' !in "Item 1A"
  {
  }

  /** For instance a chunk that begins: In this and other "risk factors". */
  lemma RiskFactorsAreCharged(points: seq<Point>, rest: string, more: string, tenant: string, coverage: string)
    ensures var content := OPENING_STOPWORDS + "\"" + rest;
      !NeverCharged(points, Print(Inserted("10-K", "Item 1A", content)) + more, tenant, coverage)
  {
    hide *;
    OpeningShape();
    ItemLabel();
    StopwordsThenQuoteMark(points, "10-K", "Item 1A", OPENING_STOPWORDS, rest, more, tenant, coverage);
  }

  lemma LongIsNoStopword(w: string)
    requires |w| > 7
    ensures !IsStopword(w)
  {
  }

  lemma LongToken(s: string)
    requires OnlyTokenChars(s) && |s| > 7
    ensures Tokenize(s) == [s]
  {
    LowerToken(s);
    OneRun(s);
    LongIsNoStopword(s);
    hide IsTokenChar, IsStopword, Runs, Lower;
    DropOne(s, []);
    assert [s] + [] == [s];
  }

  lemma StripToken(s: string)
    requires OnlyTokenChars(s)
    ensures Strip(s) == s && ReadQuote(s) == s
  {
    assert forall i :: 0 <= i < |s| ==> !IsSpace(s[i]) && s[i] != '"';
    hide IsSpace;
    SkipSpaceIs(s, 0, 0);
    IndexOfIs(s, '"', 0, |s|);
    assert s[0..] == s && s[..|s|] == s;
  }

  lemma LongTokenLookedUp(doc: string, section: string, s: string)
    requires OnlyTokenChars(s) && |s| >= MAX_QUOTE_CHARS
    ensures OnlyTokenChars(s[..MAX_QUOTE_CHARS])
    ensures LookedUp(Inserted(doc, section, s)) == s[..MAX_QUOTE_CHARS]
  {
    hide Strip, IsTokenChar, ReadQuote;
    var start := s[..MAX_QUOTE_CHARS];
    StripToken(s);
    assert OnlyTokenChars(start);
    hide OnlyTokenChars;
    StripToken(start);
  }

  /** Nor is a chunk of one token longer than the limit, say an encoded blob, sure to answer for its citation. */
  lemma LongTokenIsNotSure(p: Point, doc: string, section: string, tenant: string, coverage: string)
    requires InScope(p.payload, tenant, coverage) && OnlyTokenChars(p.content) && |p.content| > 400
    ensures !PassesInserted(p, Inserted(doc, section, p.content), tenant, coverage)
  {
    LongTokenLookedUp(doc, section, p.content);
    LongToken(p.content);
    LongToken(p.content[..MAX_QUOTE_CHARS]);
    hide InScope, SurelyFound, Tokenize, LookedUp, Inserted, MatchPrefix, Print;
    SurelyFoundIff(p, p.content[..MAX_QUOTE_CHARS], tenant, coverage);
  }

  /**
   * What is read of an inserted citation is the document and the section of its chunk, and of the offered quote,
   * at most 400 characters of the stripped content, what comes before its first quote mark.
   */
  lemma InsertedParts(doc: string, section: string, content: string, more: string)
    requires Printable(AsRead(Inserted(doc, section, content)))
    ensures var offered := OfferedQuote(content);
      var m := MatchPrefix(ENFORCER, Print(Inserted(doc, section, content)) + more);
      && m.Some? && m.value.cite.doc == doc && m.value.cite.section == section
      && m.value.cite.quote <= offered && '"' !in m.value.cite.quote
      && (m.value.cite.quote == offered || offered[|m.value.cite.quote|] == '"')
    ensures OfferedQuote(content) == if |Strip(content)| < 400 then Strip(content) else Strip(content)[..400]
  {
    hide Printable, Strip, MatchPrefix, Print;
    InsertedIsRead(Inserted(doc, section, content), more);
    assert Strip(content)[..|Strip(content)|] == Strip(content);
  }
}
