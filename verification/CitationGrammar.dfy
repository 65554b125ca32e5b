/** The citation grammar `[Document, Section]: "quote"` as a deterministic scanner. */
module CitationGrammar {
  import opened Text

  // Two grammars exist: the enforcer's, and the report generator's laxer copy, which takes any
  // non-empty quote but no newline inside the document or the section.
  datatype Grammar = Grammar(minQuote: nat, newlineLabels: bool)

  const ENFORCER := Grammar(10, true)
  const REPORT := Grammar(1, false)

  datatype Citation = Citation(doc: string, section: string, quote: string)
  datatype Match = Match(cite: Citation, length: nat)
  datatype Found = Found(lo: nat, hi: nat, cite: Citation)

  function Trim(c: Citation): Citation {
    Citation(Strip(c.doc), Strip(c.section), Strip(c.quote))
  }

  predicate Stripped(c: Citation) {
    VisibleEnds(c.doc) && VisibleEnds(c.section) && VisibleEnds(c.quote)
  }

  // Whitespace around each of the three parts.
  function Padded(p: Citation, c: Citation, q: Citation): Citation {
    Citation(p.doc + c.doc + q.doc, p.section + c.section + q.section, p.quote + c.quote + q.quote)
  }

  predicate AllBlank(p: Citation) {
    AllSpace(p.doc) && AllSpace(p.section) && AllSpace(p.quote)
  }

  /** Trimming takes the whitespace around each part off, and nothing else. */
  lemma TrimPadded(p: Citation, c: Citation, q: Citation)
    requires AllBlank(p) && AllBlank(q) && Stripped(c)
    ensures Trim(Padded(p, c, q)) == c
  {
    hide Strip, AllSpace, VisibleEnds;
    StripPadded(p.doc, c.doc, q.doc);
    StripPadded(p.section, c.section, q.section);
    StripPadded(p.quote, c.quote, q.quote);
  }

  lemma TrimStripped(c: Citation)
    requires Stripped(c)
    ensures Trim(c) == c
  {
    hide Trim, Stripped;
    var none := Citation("", "", "");
    TrimPadded(none, c, none);
    assert Padded(none, c, none) == c;
  }

  // `\s*` gives back its last character when nothing else is left for the section.
  function SectionPart(rest: string): string
    requires rest != ""
  {
    rest[Min(SkipSpace(rest, 0), |rest| - 1)..]
  }

  predicate SplitsAt(g: Grammar, head: string, c: nat) {
    && 1 <= c < |head| - 1
    && head[c] == ','
    && (g.newlineLabels || ('\n' !in head[..c] && '\n' !in SectionPart(head[c + 1..])))
  }

  /** The last comma before `n` that splits the label, or 0 when none does. */
  function SplitPoint(g: Grammar, head: string, n: nat): (c: nat)
    ensures c == 0 || 1 <= c < |head| - 1
  {
    if n == 0 then 0
    else if SplitsAt(g, head, n - 1) then n - 1
    else SplitPoint(g, head, n - 1)
  }

  lemma {:induction false} SplitPointIsLast(g: Grammar, head: string, n: nat)
    ensures var c := SplitPoint(g, head, n); c == 0 || (c < n && SplitsAt(g, head, c))
    ensures forall k :: SplitPoint(g, head, n) < k < n ==> !SplitsAt(g, head, k)
  {
    hide SplitsAt;
    if n > 0 {
      SplitPointIsLast(g, head, n - 1);
    }
  }

  // The places that decide a match: the closing bracket, the opening and the closing quote mark.
  datatype Places = Places(bracket: nat, open: nat, close: nat)

  function Locate(s: string): (p: Option<Places>)
    ensures p.Some? ==> |s| > 0 && s[0] == '[' && 1 <= p.value.bracket < p.value.open < p.value.close < |s|
  {
    if s == "" || s[0] != '[' then None else
    var r := IndexOf(s, ']', 1);
    if r + 1 >= |s| || s[r + 1] != ':' then None else
    var q := SkipSpace(s, r + 2);
    if q == |s| || s[q] != '"' then None else
    var e := IndexOf(s, '"', q + 1);
    if e == |s| then None else Some(Places(r, q, e))
  }

  /** A match of the pattern at the start of `s`. */
  function MatchPrefix(g: Grammar, s: string): (m: Option<Match>)
    ensures m.Some? ==> 0 < m.value.length <= |s| && s[0] == '['
  {
    match Locate(s)
    case None => None
    case Some(p) =>
      var head := s[1..p.bracket];
      var c := SplitPoint(g, head, |head|);
      if c == 0 || p.close - (p.open + 1) < g.minQuote then None
      else Some(Match(Citation(head[..c], SectionPart(head[c + 1..]), s[p.open + 1..p.close]), p.close + 1))
  }

  /** `findall`: the leftmost non-overlapping matches, with their places counted from `base`. */
  function FindAll(g: Grammar, s: string, base: nat): seq<Found>
    decreases |s|
  {
    if s == "" then [] else
    match MatchPrefix(g, s)
    case Some(m) => [Found(base, base + m.length, m.cite)] + FindAll(g, s[m.length..], base + m.length)
    case None => FindAll(g, s[1..], base + 1)
  }

  function Cites(found: seq<Found>): seq<Citation> {
    seq(|found|, i requires 0 <= i < |found| => found[i].cite)
  }

  // ---------------------------------------------------------------- prefix stability

  lemma LocateIs(s: string, p: Places)
    requires s != "" && s[0] == '[' && 1 <= p.bracket < p.open < p.close < |s|
    requires IndexOf(s, ']', 1) == p.bracket && s[p.bracket + 1] == ':'
    requires p.bracket + 2 <= p.open && SkipSpace(s, p.bracket + 2) == p.open && s[p.open] == '"'
    requires IndexOf(s, '"', p.open + 1) == p.close
    ensures Locate(s) == Some(p)
  {
    hide IndexOf, SkipSpace;
  }

  lemma LocateStable(s: string, more: string)
    requires Locate(s).Some?
    ensures Locate(s + more) == Locate(s)
  {
    var p := Locate(s).value;
    hide IndexOf, SkipSpace, IsSpace;
    IndexOfStable(s, more, ']', 1);
    SkipSpaceStable(s, more, p.bracket + 2);
    IndexOfStable(s, more, '"', p.open + 1);
    hide Locate;
    LocateIs(s + more, p);
  }

  lemma LocateLocal(s: string, more: string)
    requires Locate(s + more).Some? && Locate(s + more).value.close < |s|
    ensures Locate(s) == Locate(s + more)
  {
    var p := Locate(s + more).value;
    hide IndexOf, SkipSpace, IsSpace;
    IndexOfStable(s, more, ']', 1);
    SkipSpaceStable(s, more, p.bracket + 2);
    IndexOfStable(s, more, '"', p.open + 1);
    hide Locate;
    LocateIs(s, p);
  }

  /** A match is decided by its own characters: text appended later cannot change it ... */
  lemma MatchStable(g: Grammar, s: string, more: string)
    requires MatchPrefix(g, s).Some?
    ensures MatchPrefix(g, s + more) == MatchPrefix(g, s)
  {
    hide Locate, SplitPoint, SectionPart;
    LocateStable(s, more);
    var p := Locate(s).value;
    assert (s + more)[1..p.bracket] == s[1..p.bracket];
    assert (s + more)[p.open + 1..p.close] == s[p.open + 1..p.close];
  }

  /** ... and it needs none of the text after its end. */
  lemma MatchLocal(g: Grammar, s: string, more: string)
    requires MatchPrefix(g, s + more).Some?
    requires MatchPrefix(g, s + more).value.length <= |s|
    ensures MatchPrefix(g, s) == MatchPrefix(g, s + more)
  {
    hide Locate, SplitPoint, SectionPart;
    LocateLocal(s, more);
    var p := Locate(s + more).value;
    assert (s + more)[1..p.bracket] == s[1..p.bracket];
    assert (s + more)[p.open + 1..p.close] == s[p.open + 1..p.close];
  }

  // ---------------------------------------------------------------- matches and cuts

  predicate Straddles(f: Found, cut: int) {
    f.lo < cut < f.hi
  }

  predicate NoneStraddles(found: seq<Found>, cut: int) {
    forall i :: 0 <= i < |found| ==> !Straddles(found[i], cut)
  }

  predicate Genuine(g: Grammar, s: string, base: nat, f: Found) {
    && base <= f.lo < f.hi <= base + |s|
    && MatchPrefix(g, s[f.lo - base..]) == Some(Match(f.cite, f.hi - f.lo))
  }

  lemma {:induction false} FindAllGenuine(g: Grammar, s: string, base: nat)
    ensures forall f :: f in FindAll(g, s, base) ==> Genuine(g, s, base, f)
    decreases |s|
  {
    hide MatchPrefix;
    if s != "" {
      assert s[0..] == s;
      var k := match MatchPrefix(g, s) case Some(m) => m.length case None => 1;
      FindAllGenuine(g, s[k..], base + k);
      forall f | f in FindAll(g, s[k..], base + k)
        ensures Genuine(g, s, base, f)
      {
        assert s[k..][f.lo - (base + k)..] == s[f.lo - base..];
      }
    }
  }

  lemma FoundWithin(g: Grammar, s: string, base: nat, cut: int)
    requires cut <= base || base + |s| <= cut
    ensures NoneStraddles(FindAll(g, s, base), cut)
  {
    FindAllGenuine(g, s, base);
    forall i | 0 <= i < |FindAll(g, s, base)| ensures !Straddles(FindAll(g, s, base)[i], cut) {
      assert Genuine(g, s, base, FindAll(g, s, base)[i]);
    }
  }

  lemma ConcatUnstraddled(left: seq<Found>, right: seq<Found>, cut: int)
    requires NoneStraddles(left, cut) && NoneStraddles(right, cut)
    ensures NoneStraddles(left + right, cut)
  {
  }

  /** Scanning two halves separately finds what scanning the whole finds, exactly when no match lies across the cut. */
  lemma FindAllConcat(g: Grammar, a: string, b: string, base: nat)
    ensures FindAll(g, a + b, base) == FindAll(g, a, base) + FindAll(g, b, base + |a|)
       <==> NoneStraddles(FindAll(g, a + b, base), base + |a|)
  {
    hide FindAll;
    if NoneStraddles(FindAll(g, a + b, base), base + |a|) {
      FindAllSplits(g, a, b, base);
    } else {
      FoundWithin(g, a, base, base + |a|);
      FoundWithin(g, b, base + |a|, base + |a|);
      ConcatUnstraddled(FindAll(g, a, base), FindAll(g, b, base + |a|), base + |a|);
    }
  }

  // How both scans go on from the start of `a`: over a match of the whole, or over one plain character.
  lemma ScansGoOn(g: Grammar, a: string, b: string, base: nat, k: nat) returns (first: seq<Found>)
    requires a != "" && k <= |a|
    requires k == match MatchPrefix(g, a + b) case Some(m) => m.length case None => 1
    ensures 0 < k
    ensures FindAll(g, a + b, base) == first + FindAll(g, a[k..] + b, base + k)
    ensures FindAll(g, a, base) == first + FindAll(g, a[k..], base + k)
  {
    hide MatchPrefix;
    assert (a + b)[k..] == a[k..] + b;
    if MatchPrefix(g, a).Some? {
      MatchStable(g, a, b);
    }
    match MatchPrefix(g, a + b)
    case Some(m) =>
      MatchLocal(g, a, b);
      first := [Found(base, base + k, m.cite)];
    case None =>
      first := [];
  }

  lemma FirstMatchUncut(g: Grammar, s: string, base: nat, cut: nat)
    requires base < cut && MatchPrefix(g, s).Some? && NoneStraddles(FindAll(g, s, base), cut)
    ensures base + MatchPrefix(g, s).value.length <= cut
  {
    hide MatchPrefix;
    assert !Straddles(FindAll(g, s, base)[0], cut);
  }

  lemma {:induction false} FindAllSplits(g: Grammar, a: string, b: string, base: nat)
    requires NoneStraddles(FindAll(g, a + b, base), base + |a|)
    ensures FindAll(g, a + b, base) == FindAll(g, a, base) + FindAll(g, b, base + |a|)
    decreases |a|
  {
    hide *;
    if a == "" {
      assert a + b == b;
      FindInNothing(g, base);
    } else {
      if MatchPrefix(g, a + b).Some? {
        FirstMatchUncut(g, a + b, base, base + |a|);
      }
      var k := match MatchPrefix(g, a + b) case Some(m) => m.length case None => 1;
      var first := ScansGoOn(g, a, b, base, k);
      RestUnstraddled(first, FindAll(g, a[k..] + b, base + k), base + |a|);
      FindAllSplits(g, a[k..], b, base + k);
    }
  }

  lemma FindInNothing(g: Grammar, base: nat)
    ensures FindAll(g, "", base) == []
  {
  }

  lemma RestUnstraddled(left: seq<Found>, right: seq<Found>, cut: int)
    requires NoneStraddles(left + right, cut)
    ensures NoneStraddles(right, cut)
  {
    assert forall i :: 0 <= i < |right| ==> right[i] == (left + right)[|left| + i];
  }

  // ---------------------------------------------------------------- print / parse

  function Print(c: Citation): string {
    "[" + c.doc + ", " + c.section + "]: \"" + c.quote + "\""
  }

  /** What the notes editor may insert so that the enforcer reads back the same citation. */
  predicate Printable(c: Citation) {
    && c.doc != "" && ']' !in c.doc
    && c.section != "" && ']' !in c.section
    && ',' !in c.section[..|c.section| - 1]
    && (|c.section| == 1 || !IsSpace(c.section[0]))
    && |c.quote| >= 10 && '"' !in c.quote
  }

  lemma MatchShape(g: Grammar, s: string)
    requires MatchPrefix(g, s).Some?
    ensures var c := MatchPrefix(g, s).value.cite;
      && c.doc != "" && ']' !in c.doc
      && c.section != "" && ']' !in c.section
      && (|c.section| == 1 || !IsSpace(c.section[0]))
      && |c.quote| >= g.minQuote && '"' !in c.quote
  {
  }

  lemma SplitOfPrinted(doc: string, section: string)
    requires doc != "" && section != ""
    ensures var head := doc + ", " + section; var c := SplitPoint(ENFORCER, head, |head|);
      c >= |doc| && (c == |doc| <==> ',' !in section[..|section| - 1])
  {
    var head := doc + ", " + section;
    var c := SplitPoint(ENFORCER, head, |head|);
    SplitPointIsLast(ENFORCER, head, |head|);
    assert SplitsAt(ENFORCER, head, |doc|);
    if c > |doc| {
      assert head[c] == section[..|section| - 1][c - |doc| - 2];
    } else if ',' in section[..|section| - 1] {
      var i :| 0 <= i < |section| - 1 && section[i] == ',';
      assert SplitsAt(ENFORCER, head, |doc| + 2 + i);
    }
  }

  lemma SectionOfPrinted(section: string)
    requires section != "" && (|section| == 1 || !IsSpace(section[0]))
    ensures SectionPart(" " + section) == section
  {
    var rest := " " + section;
    SkipSpaceIs(rest, 0, if IsSpace(section[0]) then 2 else 1);
    assert rest[1..] == section;
  }

  lemma PrintedBracket(c: Citation, more: string)
    requires ']' !in c.doc && ']' !in c.section
    ensures var s := Print(c) + more; var r := |c.doc| + |c.section| + 3;
      r < |s| && IndexOf(s, ']', 1) == r && s[1..r] == c.doc + ", " + c.section
  {
    var s := Print(c) + more;
    var head := c.doc + ", " + c.section;
    assert s[1..|head| + 1] == head;
    assert forall k :: 0 <= k < |head| ==> head[k] == s[k + 1];
    forall k | 1 <= k < |head| + 1 ensures s[k] != ']' {
      assert s[k] == head[k - 1];
    }
    IndexOfIs(s, ']', 1, |head| + 1);
  }

  lemma PrintedPlaces(c: Citation, more: string)
    requires ']' !in c.doc && ']' !in c.section && '"' !in c.quote
    ensures var r := |c.doc| + |c.section| + 3;
      Locate(Print(c) + more) == Some(Places(r, r + 3, r + 4 + |c.quote|))
    ensures (Print(c) + more)[|c.doc| + |c.section| + 7..|Print(c)| - 1] == c.quote
  {
    hide *;
    PrintedBracket(c, more);
    PrintedColon(c, more);
    PrintedQuoteMark(c, more);
    var r := |c.doc| + |c.section| + 3;
    LocateIs(Print(c) + more, Places(r, r + 3, r + 4 + |c.quote|));
  }

  lemma PrintedColon(c: Citation, more: string)
    ensures var s := Print(c) + more; var r := |c.doc| + |c.section| + 3;
      && r + 3 < |s| && s[r + 1] == ':' && s[r + 3] == '"' && SkipSpace(s, r + 2) == r + 3
  {
    hide SkipSpace;
    var s, r := Print(c) + more, |c.doc| + |c.section| + 3;
    assert s[r + 1] == ':' && s[r + 2] == ' ' && s[r + 3] == '"';
    SkipSpaceIs(s, r + 2, r + 3);
  }

  lemma PrintedQuoteMark(c: Citation, more: string)
    requires '"' !in c.quote
    ensures var s := Print(c) + more; var q := |c.doc| + |c.section| + 6; var e := q + 1 + |c.quote|;
      && |Print(c)| == e + 1 && s[0] == '[' && s[q] == '"'
      && s[q + 1..e] == c.quote && IndexOf(s, '"', q + 1) == e
  {
    var s, q := Print(c) + more, |c.doc| + |c.section| + 6;
    var e := q + 1 + |c.quote|;
    assert s[q + 1..e] == c.quote;
    forall k | q + 1 <= k < e ensures s[k] != '"' {
      assert s[k] == c.quote[k - q - 1];
    }
    IndexOfIs(s, '"', q + 1, e);
  }

  lemma PrintableParses(c: Citation, more: string)
    requires Printable(c)
    ensures MatchPrefix(ENFORCER, Print(c) + more) == Some(Match(c, |Print(c)|))
  {
    hide Locate, SplitsAt, SplitPoint, SectionPart, SkipSpace, IndexOf, IsSpace;
    PrintedPlaces(c, more);
    PrintedBracket(c, more);
    SplitOfPrinted(c.doc, c.section);
    SectionOfPrinted(c.section);
    var head := c.doc + ", " + c.section;
    assert head[..|c.doc|] == c.doc;
    assert head[|c.doc| + 1..] == " " + c.section;
  }

  lemma ParsedIsPrintable(c: Citation, more: string)
    requires MatchPrefix(ENFORCER, Print(c) + more) == Some(Match(c, |Print(c)|))
    ensures Printable(c)
  {
    hide Locate, SplitsAt, SplitPoint, SectionPart, SkipSpace, IndexOf, IsSpace;
    MatchShape(ENFORCER, Print(c) + more);
    PrintedPlaces(c, more);
    PrintedBracket(c, more);
    SplitOfPrinted(c.doc, c.section);
    var head := c.doc + ", " + c.section;
    var k := SplitPoint(ENFORCER, head, |head|);
    assert head[..k] == c.doc;
  }

  /** Round trip: a printed citation, whatever follows it, scans back to itself iff it is printable. */
  lemma PrintParse(c: Citation, more: string)
    ensures MatchPrefix(ENFORCER, Print(c) + more) == Some(Match(c, |Print(c)|)) <==> Printable(c)
  {
    if Printable(c) {
      PrintableParses(c, more);
    }
    if MatchPrefix(ENFORCER, Print(c) + more) == Some(Match(c, |Print(c)|)) {
      ParsedIsPrintable(c, more);
    }
  }

  // ---------------------------------------------------------------- insertion into a text

  predicate InSequence(found: seq<Found>) {
    forall i, j :: 0 <= i < j < |found| ==> found[i].hi <= found[j].lo
  }

  /** What is found stands in order, without overlap. */
  lemma {:induction false} FindAllInSequence(g: Grammar, s: string, base: nat)
    ensures InSequence(FindAll(g, s, base))
    decreases |s|
  {
    hide MatchPrefix;
    if s != "" {
      var k := match MatchPrefix(g, s) case Some(m) => m.length case None => 1;
      FindAllInSequence(g, s[k..], base + k);
      FindAllGenuine(g, s[k..], base + k);
      forall f | f in FindAll(g, s[k..], base + k) ensures base + k <= f.lo {
        assert Genuine(g, s[k..], base + k, f);
      }
    }
  }

  lemma NoneAcrossStart(found: seq<Found>, f: Found)
    requires InSequence(found) && f in found && forall x :: x in found ==> x.lo < x.hi
    ensures NoneStraddles(found, f.lo)
  {
    var j :| 0 <= j < |found| && found[j] == f;
    forall i | 0 <= i < |found| ensures !Straddles(found[i], f.lo) {
      assert found[i] in found;
    }
  }

  lemma PrintedFirst(c: Citation, more: string, base: nat)
    requires Printable(c)
    ensures Found(base, base + |Print(c)|, c) in FindAll(ENFORCER, Print(c) + more, base)
  {
    hide MatchPrefix, Printable;
    PrintParse(c, more);
  }

  /**
   * A citation inserted into a text is reported, at its place and with its parts, if and only if it is
   * printable and no citation found in the result begins before it and reaches into it.
   */
  lemma InsertedIsReported(before: string, c: Citation, more: string)
    ensures var found := FindAll(ENFORCER, before + Print(c) + more, 0);
      Found(|before|, |before| + |Print(c)|, c) in found <==> Printable(c) && NoneStraddles(found, |before|)
  {
    hide *;
    var whole := before + Print(c) + more;
    var found, f := FindAll(ENFORCER, whole, 0), Found(|before|, |before| + |Print(c)|, c);
    assert whole == before + (Print(c) + more);
    if f in found {
      FoundAt(whole, f);
      assert whole[|before|..] == Print(c) + more;
      PrintParse(c, more);
      FindAllInSequence(ENFORCER, whole, 0);
      NoneAcrossStart(found, f);
    }
    if Printable(c) && NoneStraddles(found, |before|) {
      FindAllSplits(ENFORCER, before, Print(c) + more, 0);
      PrintedFirst(c, more, |before|);
    }
  }

  lemma FoundAt(s: string, f: Found)
    requires f in FindAll(ENFORCER, s, 0)
    ensures f.lo < f.hi <= |s| && MatchPrefix(ENFORCER, s[f.lo..]) == Some(Match(f.cite, f.hi - f.lo))
    ensures forall x :: x in FindAll(ENFORCER, s, 0) ==> x.lo < x.hi
  {
    hide MatchPrefix, FindAll;
    FindAllGenuine(ENFORCER, s, 0);
    assert Genuine(ENFORCER, s, 0, f);
    assert forall x :: x in FindAll(ENFORCER, s, 0) ==> Genuine(ENFORCER, s, 0, x);
  }

  // ---------------------------------------------------------------- quotes with quote marks in them

  // A printed quote is not escaped: it is read up to its first quote mark.
  function ReadQuote(quote: string): string {
    quote[..IndexOf(quote, '"', 0)]
  }

  function AsRead(c: Citation): Citation {
    c.(quote := ReadQuote(c.quote))
  }

  // The text behind the quote mark that ends the reading.
  function BehindRead(c: Citation, more: string): string {
    if ReadQuote(c.quote) == c.quote then more else c.quote[|ReadQuote(c.quote)| + 1..] + "\"" + more
  }

  lemma PrintedAsRead(c: Citation, more: string)
    ensures Print(c) + more == Print(AsRead(c)) + BehindRead(c, more)
    ensures '"' !in ReadQuote(c.quote)
  {
    hide IndexOf;
    var r := ReadQuote(c.quote);
    if r != c.quote {
      assert c.quote == r + "\"" + c.quote[|r| + 1..];
    }
  }

  /**
   * A printed citation with any quote is read with its own label and the quote up to its first quote mark if and
   * only if that is printable.
   */
  lemma InsertedIsRead(c: Citation, more: string)
    ensures MatchPrefix(ENFORCER, Print(c) + more) == Some(Match(AsRead(c), |Print(AsRead(c))|))
       <==> Printable(AsRead(c))
  {
    hide *;
    PrintedAsRead(c, more);
    PrintParse(AsRead(c), BehindRead(c, more));
  }

  predicate Labelled(c: Citation) {
    c.doc != "" && c.section != "" && ']' !in c.doc && ']' !in c.section
  }

  lemma LabelledMeans(c: Citation)
    requires Labelled(c)
    ensures c.doc != "" && c.section != "" && ']' !in c.doc && ']' !in c.section
  {
  }

  lemma PrintedAt(c: Citation, more: string) returns (p: Places)
    requires Labelled(c) && '"' !in c.quote
    ensures 1 <= p.bracket < p.open < p.close < |Print(c) + more|
    ensures Locate(Print(c) + more) == Some(p)
    ensures (Print(c) + more)[1..p.bracket] == c.doc + ", " + c.section
    ensures (Print(c) + more)[p.open + 1..p.close] == c.quote && p.close + 1 == |Print(c)|
  {
    hide *;
    LabelledMeans(c);
    var r := |c.doc| + |c.section| + 3;
    p := Places(r, r + 3, r + 4 + |c.quote|);
    PrintedPlaces(c, more);
    PrintedBracket(c, more);
    PrintedQuoteMark(c, more);
  }

  lemma ShortMatch(g: Grammar, s: string, p: Places, head: string, quote: string)
    requires Locate(s) == Some(p) && s[1..p.bracket] == head && s[p.open + 1..p.close] == quote
    requires |quote| < g.minQuote
    ensures MatchPrefix(g, s).None?
  {
    hide Locate, SplitPoint, SectionPart;
  }

  lemma LongMatch(g: Grammar, s: string, p: Places, head: string, quote: string)
    requires Locate(s) == Some(p) && s[1..p.bracket] == head && s[p.open + 1..p.close] == quote
    requires |quote| >= g.minQuote && SplitPoint(g, head, |head|) != 0
    ensures var c := SplitPoint(g, head, |head|);
      MatchPrefix(g, s) == Some(Match(Citation(head[..c], SectionPart(head[c + 1..]), quote), p.close + 1))
  {
    hide Locate, SplitPoint, SectionPart;
  }

  lemma QuotePlaces(c: Citation, more: string)
    requires Labelled(c) && '"' !in c.quote
    ensures var m := MatchPrefix(ENFORCER, Print(c) + more);
      if |c.quote| < 10 then m.None?
      else m.Some? && m.value.length == |Print(c)| && m.value.cite.quote == c.quote
  {
    hide MatchPrefix, Print, Locate, SplitPoint, SectionPart, SplitsAt;
    LabelledMeans(c);
    var p := PrintedAt(c, more);
    SplitOfPrinted(c.doc, c.section);
    hide *;
    if |c.quote| < 10 {
      ShortMatch(ENFORCER, Print(c) + more, p, c.doc + ", " + c.section, c.quote);
    } else {
      LongMatch(ENFORCER, Print(c) + more, p, c.doc + ", " + c.section, c.quote);
    }
  }

  /**
   * Whatever commas stand in the label: no citation is read when fewer than ten characters come before the
   * first quote mark of the quote, and otherwise exactly those are read as the quote.
   */
  lemma QuoteIsRead(c: Citation, more: string)
    requires Labelled(c)
    ensures var m := MatchPrefix(ENFORCER, Print(c) + more);
      if |ReadQuote(c.quote)| < 10 then m.None?
      else m.Some? && m.value.length == |Print(AsRead(c))| && m.value.cite.quote == ReadQuote(c.quote)
  {
    hide MatchPrefix, Print, BehindRead, ReadQuote;
    PrintedAsRead(c, more);
    QuotePlaces(AsRead(c), BehindRead(c, more));
  }
}
