/** The enforcer's citation grammar against the copy of it that numbers footnotes in reports. */
module GrammarAgreement {
  import opened Text
  import opened CitationGrammar

  predicate OneLine(c: Citation) {
    '\n' !in c.doc && '\n' !in c.section
  }

  // ---------------------------------------------------------------- one citation

  /** The label between the brackets and the length of the quote, when there is anything to read. */
  function Label(s: string, p: Places): string
    requires 1 <= p.bracket < |s|
  {
    s[1..p.bracket]
  }

  lemma ReportSplitsLess(head: string, k: nat)
    requires SplitsAt(REPORT, head, k)
    ensures SplitsAt(ENFORCER, head, k)
  {
  }

  /** A split point that the report accepts too is the report's own. */
  lemma SameSplit(head: string)
    ensures var c, r := SplitPoint(ENFORCER, head, |head|), SplitPoint(REPORT, head, |head|);
      && r <= c
      && (c != 0 ==> (r == c <==> SplitsAt(REPORT, head, c)))
  {
    hide SplitsAt, SplitPoint;
    var c, r := SplitPoint(ENFORCER, head, |head|), SplitPoint(REPORT, head, |head|);
    SplitPointIsLast(ENFORCER, head, |head|);
    SplitPointIsLast(REPORT, head, |head|);
    if r > 0 {
      ReportSplitsLess(head, r);
    }
  }

  /**
   * Where a citation may start, both grammars read the same if and only if: there is no closed quote after a
   * closed label; or the quote is empty; or the label has no comma to split at; or the quote has ten characters
   * and the last comma leaves no newline on either side; or it is shorter and every comma leaves one.
   */
  predicate SameReading(s: string) {
    match Locate(s)
    case None => true
    case Some(p) =>
      var head, quote := Label(s, p), p.close - (p.open + 1);
      var c := SplitPoint(ENFORCER, head, |head|);
      || quote == 0 || c == 0
      || (quote >= 10 && SplitsAt(REPORT, head, c))
      || (quote < 10 && SplitPoint(REPORT, head, |head|) == 0)
  }

  lemma SameReadingIff(s: string)
    ensures MatchPrefix(ENFORCER, s) == MatchPrefix(REPORT, s) <==> SameReading(s)
  {
    hide Locate, SplitPoint, SplitsAt, SectionPart;
    match Locate(s)
    case None =>
    case Some(p) =>
      var head := s[1..p.bracket];
      SameSplit(head);
      var c, r := SplitPoint(ENFORCER, head, |head|), SplitPoint(REPORT, head, |head|);
      assert c != r ==> |head[..c]| != |head[..r]|;
  }

  // ---------------------------------------------------------------- whole texts

  lemma EnforcerReads(s: string)
    requires MatchPrefix(ENFORCER, s).Some?
    ensures |MatchPrefix(ENFORCER, s).value.cite.quote| >= 10
    ensures MatchPrefix(REPORT, s) == MatchPrefix(ENFORCER, s) <==> OneLine(MatchPrefix(ENFORCER, s).value.cite)
  {
    hide Locate, SplitPoint, SectionPart;
    var head := s[1..Locate(s).value.bracket];
    SameSplit(head);
    SplitPointIsLast(ENFORCER, head, |head|);
    var c, r := SplitPoint(ENFORCER, head, |head|), SplitPoint(REPORT, head, |head|);
    assert c != r ==> |head[..c]| != |head[..r]|;
  }

  lemma ReportReads(s: string)
    requires MatchPrefix(REPORT, s).Some?
    ensures OneLine(MatchPrefix(REPORT, s).value.cite)
    ensures MatchPrefix(ENFORCER, s).Some? <==> |MatchPrefix(REPORT, s).value.cite.quote| >= 10
  {
    hide Locate, SplitPoint, SectionPart;
    var head := s[1..Locate(s).value.bracket];
    SameSplit(head);
    SplitPointIsLast(REPORT, head, |head|);
  }

  predicate AllOneLine(found: seq<Found>) {
    forall f :: f in found ==> OneLine(f.cite)
  }

  predicate AllLong(found: seq<Found>) {
    forall f :: f in found ==> |f.cite.quote| >= 10
  }

  /** Each grammar keeps its own rule. */
  lemma OwnRules(s: string, base: nat)
    ensures AllLong(FindAll(ENFORCER, s, base)) && AllOneLine(FindAll(REPORT, s, base))
  {
    hide MatchPrefix, FindAll, OneLine;
    FindAllGenuine(ENFORCER, s, base);
    FindAllGenuine(REPORT, s, base);
    forall f | f in FindAll(ENFORCER, s, base) ensures |f.cite.quote| >= 10 {
      assert Genuine(ENFORCER, s, base, f);
      EnforcerReads(s[f.lo - base..]);
    }
    forall f | f in FindAll(REPORT, s, base) ensures OneLine(f.cite) {
      assert Genuine(REPORT, s, base, f);
      ReportReads(s[f.lo - base..]);
    }
  }

  lemma UnfoldFindAll(g: Grammar, s: string, base: nat)
    requires s != ""
    ensures FindAll(g, s, base) == match MatchPrefix(g, s)
      case Some(m) => [Found(base, base + m.length, m.cite)] + FindAll(g, s[m.length..], base + m.length)
      case None => FindAll(g, s[1..], base + 1)
  {
    hide MatchPrefix;
  }

  /** Under both rules no place is read differently. */
  lemma SameStep(s: string, base: nat)
    requires s != "" && AllOneLine(FindAll(ENFORCER, s, base)) && AllLong(FindAll(REPORT, s, base))
    ensures MatchPrefix(ENFORCER, s) == MatchPrefix(REPORT, s)
  {
    hide MatchPrefix, FindAll, OneLine;
    UnfoldFindAll(ENFORCER, s, base);
    UnfoldFindAll(REPORT, s, base);
    if MatchPrefix(ENFORCER, s).Some? {
      assert FindAll(ENFORCER, s, base)[0] in FindAll(ENFORCER, s, base);
      EnforcerReads(s);
    } else if MatchPrefix(REPORT, s).Some? {
      assert FindAll(REPORT, s, base)[0] in FindAll(REPORT, s, base);
      ReportReads(s);
    }
  }

  lemma {:induction false} SameScan(s: string, base: nat)
    requires AllOneLine(FindAll(ENFORCER, s, base)) && AllLong(FindAll(REPORT, s, base))
    ensures FindAll(ENFORCER, s, base) == FindAll(REPORT, s, base)
    decreases |s|
  {
    hide MatchPrefix, FindAll, OneLine;
    if s == "" {
      FindInNothing(ENFORCER, base);
      FindInNothing(REPORT, base);
    } else {
      SameStep(s, base);
      UnfoldFindAll(ENFORCER, s, base);
      UnfoldFindAll(REPORT, s, base);
      var k := match MatchPrefix(ENFORCER, s) case Some(m) => m.length case None => 1;
      assert forall f :: f in FindAll(ENFORCER, s[k..], base + k) ==> f in FindAll(ENFORCER, s, base);
      assert forall f :: f in FindAll(REPORT, s[k..], base + k) ==> f in FindAll(REPORT, s, base);
      SameScan(s[k..], base + k);
    }
  }

  /**
   * The report numbers exactly the citations the enforcer has seen, with the same parts, if and only if no
   * citation the enforcer finds has a newline in its label and none the report finds has a quote under ten
   * characters.
   */
  lemma GrammarsAgree(s: string)
    ensures FindAll(ENFORCER, s, 0) == FindAll(REPORT, s, 0)
       <==> AllOneLine(FindAll(ENFORCER, s, 0)) && AllLong(FindAll(REPORT, s, 0))
  {
    hide FindAll, OneLine;
    OwnRules(s, 0);
    if AllOneLine(FindAll(ENFORCER, s, 0)) && AllLong(FindAll(REPORT, s, 0)) {
      SameScan(s, 0);
    }
  }

  // ---------------------------------------------------------------- texts on which they differ

  const BROKEN_LABEL := Citation("Doc,\nRisk", "Factors", "0123456789")

  lemma BrokenLabelIsPrintable()
    ensures Printable(BROKEN_LABEL) && !OneLine(BROKEN_LABEL)
  {
    assert "Doc,\nRisk"[4] == '\n';
  }

  /** A printed citation with a newline in its label is read by the enforcer as it is, and not so by the report. */
  lemma BrokenLabelDiffers(c: Citation, more: string)
    requires Printable(c) && !OneLine(c)
    ensures MatchPrefix(ENFORCER, Print(c) + more) == Some(Match(c, |Print(c)|))
    ensures MatchPrefix(REPORT, Print(c) + more) != MatchPrefix(ENFORCER, Print(c) + more)
    ensures FindAll(ENFORCER, Print(c) + more, 0) != FindAll(REPORT, Print(c) + more, 0)
  {
    hide *;
    PrintParse(c, more);
    EnforcerReads(Print(c) + more);
    PrintedFirst(c, more, 0);
    NotAllOneLine(FindAll(ENFORCER, Print(c) + more, 0), Found(0, 0 + |Print(c)|, c));
    GrammarsAgree(Print(c) + more);
  }

  lemma NotAllOneLine(found: seq<Found>, f: Found)
    requires f in found && !OneLine(f.cite)
    ensures !AllOneLine(found)
  {
  }

  lemma BrokenLabelExample(more: string)
    ensures FindAll(ENFORCER, Print(BROKEN_LABEL) + more, 0) != FindAll(REPORT, Print(BROKEN_LABEL) + more, 0)
  {
    hide *;
    BrokenLabelIsPrintable();
    BrokenLabelDiffers(BROKEN_LABEL, more);
  }

  lemma BrokenHead()
    ensures var head := "Doc,\nRisk, Factors";
      && |head| == 18 && head[3] == ',' && head[4] == '\n' && head[9] == ','
      && (forall k :: 0 <= k < 18 && k != 3 && k != 9 ==> head[k] != ',')
      && head[..3] == "Doc" && head[4..] == "\n" + "Risk, Factors" && head[10..] == " " + "Factors"
  {
    var head := "Doc,\nRisk, Factors";
    assert head[5] == 'R' && head[6] == 'i' && head[7] == 's' && head[8] == 'k';
  }

  lemma SectionAfterSpace(c: char, section: string)
    requires IsSpace(c) && section != "" && !IsSpace(section[0])
    ensures SectionPart([c] + section) == section
  {
    SkipSpaceIs([c] + section, 0, 1);
    assert ([c] + section)[1..] == section;
  }

  lemma NoNewlineThere()
    ensures '\n' !in "Doc" && '\n' !in "Risk, Factors" && '\n' !in "Factors"
    ensures !IsSpace("Risk, Factors"[0]) && !IsSpace("Factors"[0]) && IsSpace('\n') && IsSpace(' ')
  {
  }

  /** What the report reads there: it splits at a comma further left, and shows other parts. */
  lemma BrokenLabelInReport()
    ensures var head := "Doc,\nRisk, Factors";
      && SplitPoint(ENFORCER, head, |head|) == 9 && SplitPoint(REPORT, head, |head|) == 3
      && head[..3] == "Doc" && SectionPart(head[4..]) == "Risk, Factors"
  {
    BrokenHead();
    NoNewlineThere();
    SectionAfterSpace('\n', "Risk, Factors");
    SectionAfterSpace(' ', "Factors");
    hide IsSpace, SectionPart, SplitPoint;
    var head := "Doc,\nRisk, Factors";
    SplitPointIsLast(ENFORCER, head, |head|);
    SplitPointIsLast(REPORT, head, |head|);
    assert SplitsAt(ENFORCER, head, 9) && SplitsAt(REPORT, head, 3);
    assert head[..9][4] == '\n';
  }

  /** And a short quote is footnoted although the enforcer sees no citation there. */
  lemma ShortQuoteDiffers(c: Citation, more: string)
    requires Labelled(c) && OneLine(c) && '"' !in c.quote && 1 <= |c.quote| < 10
    requires ',' !in c.section && !IsSpace(c.section[0])
    ensures MatchPrefix(ENFORCER, Print(c) + more).None?
    ensures MatchPrefix(REPORT, Print(c) + more) == Some(Match(c, |Print(c)|))
  {
    hide *;
    LabelledMeans(c);
    SmallestQuotes();
    var p := PrintedAt(c, more);
    ReportSplitOfPrinted(c);
    ShortMatch(ENFORCER, Print(c) + more, p, c.doc + ", " + c.section, c.quote);
    LongMatch(REPORT, Print(c) + more, p, c.doc + ", " + c.section, c.quote);
  }

  lemma SmallestQuotes()
    ensures ENFORCER.minQuote == 10 && REPORT.minQuote == 1
  {
  }

  lemma ReportSplitOfPrinted(c: Citation)
    requires c.doc != "" && c.section != "" && OneLine(c) && ',' !in c.section && !IsSpace(c.section[0])
    ensures var head := c.doc + ", " + c.section;
      && SplitPoint(REPORT, head, |head|) == |c.doc|
      && head[..|c.doc|] == c.doc && SectionPart(head[|c.doc| + 1..]) == c.section
  {
    SectionOfPrinted(c.section);
    hide IsSpace, SectionPart, SplitPoint;
    var head := c.doc + ", " + c.section;
    assert head[..|c.doc|] == c.doc && head[|c.doc| + 1..] == " " + c.section;
    assert head[|c.doc| + 1] == ' ';
    assert forall k :: |c.doc| + 2 <= k < |head| ==> head[k] == c.section[k - |c.doc| - 2];
    SplitPointIsLast(REPORT, head, |head|);
    assert SplitsAt(REPORT, head, |c.doc|);
  }
}
