/** Scanning placeholders back: every citation becomes one marker, and nothing else does. */
module ReportMarkers {
  import opened Text
  import opened CitationGrammar
  import opened Footnotes
  import opened Numerals

  // Rendered HTML as raw text and footnote markers; a marker carries the digits the scan captured.
  datatype Node = Raw(text: string) | Marker(digits: string)

  const OPENING := "@@CITE"

  /** `@@CITE(\d+)@@` at the start of `s`: the captured digits. */
  function PlaceholderAt(s: string): (d: Option<string>)
    ensures d.Some? ==> d.value != "" && |s| >= |d.value| + 8 && s[0] == '@'
  {
    if !(OPENING <= s) then None else
    var e := DecimalsEnd(s, 6);
    if e == 6 || e + 2 > |s| || s[e] != '@' || s[e + 1] != '@' then None else Some(s[6..e])
  }

  /** `_PLACEHOLDER_RE.sub`: placeholders become markers, all other characters stay. */
  function ToMarkers(s: string): seq<Node>
    decreases |s|
  {
    if s == "" then [] else
    match PlaceholderAt(s)
    case Some(d) => [Marker(d)] + ToMarkers(s[|d| + 8..])
    case None => [Raw([s[0]])] + ToMarkers(s[1..])
  }

  /** The footnote numbers of a piece of HTML, in order. */
  function Marks(html: seq<Node>): seq<string> {
    if html == [] then [] else MarkOf(html[0]) + Marks(html[1..])
  }

  function MarkOf(n: Node): seq<string> {
    if n.Marker? then [n.digits] else []
  }

  // The numbers a text would be marked with.
  function Scan(s: string): seq<string>
    decreases |s|
  {
    if s == "" then [] else
    match PlaceholderAt(s)
    case Some(d) => [d] + Scan(s[|d| + 8..])
    case None => Scan(s[1..])
  }

  lemma {:induction false} MarksConcat(a: seq<Node>, b: seq<Node>)
    ensures Marks(a + b) == Marks(a) + Marks(b)
  {
    hide MarkOf;
    if a == [] {
      assert a + b == b;
    } else {
      assert (a + b)[1..] == a[1..] + b;
      MarksConcat(a[1..], b);
    }
  }

  lemma {:induction false} MarksOfScan(s: string)
    ensures Marks(ToMarkers(s)) == Scan(s)
    decreases |s|
  {
    hide PlaceholderAt;
    if s != "" {
      match PlaceholderAt(s)
      case Some(d) =>
        MarksOfScan(s[|d| + 8..]);
        assert ([Marker(d)] + ToMarkers(s[|d| + 8..]))[1..] == ToMarkers(s[|d| + 8..]);
      case None =>
        MarksOfScan(s[1..]);
        assert ([Raw([s[0]])] + ToMarkers(s[1..]))[1..] == ToMarkers(s[1..]);
    }
  }

  // ---------------------------------------------------------------- where placeholders can be

  predicate InPlaceholder(c: char) {
    c in OPENING || IsDecimal(c)
  }

  lemma OpeningLocal(a: string, c: char, b: string)
    requires !InPlaceholder(c)
    ensures OPENING <= a + [c] + b <==> OPENING <= a
  {
    assert |a| < 6 ==> (a + [c] + b)[|a|] == c && OPENING[|a|] in OPENING;
  }

  /** A placeholder consists of placeholder characters only, so no other character can lie inside one. */
  lemma PlaceholderLocal(a: string, c: char, b: string)
    requires !InPlaceholder(c)
    ensures PlaceholderAt(a + [c] + b) == PlaceholderAt(a)
  {
    var s := a + [c] + b;
    OpeningLocal(a, c, b);
    if OPENING <= a {
      var e := DecimalsEnd(a, 6);
      assert s[e] == if e < |a| then a[e] else c;
      DecimalsEndIs(s, 6, e);
      assert s[6..e] == a[6..e];
      assert e + 1 == |a| ==> s[e + 1] == c;
    }
  }

  /** Cutting a text at any such character cuts no placeholder. */
  lemma {:induction false} ScanAround(a: string, c: char, b: string)
    requires !InPlaceholder(c)
    ensures Scan(a + [c] + b) == Scan(a) + Scan(b)
    decreases |a|
  {
    hide PlaceholderAt, InPlaceholder;
    var s := a + [c] + b;
    PlaceholderLocal(a, c, b);
    if a == "" {
      assert PlaceholderAt("").None? by { NoEmptyPlaceholder(); }
      assert s[1..] == b;
    } else {
      match PlaceholderAt(a)
      case Some(d) =>
        assert s[|d| + 8..] == a[|d| + 8..] + [c] + b;
        ScanAround(a[|d| + 8..], c, b);
      case None =>
        assert s[1..] == a[1..] + [c] + b;
        ScanAround(a[1..], c, b);
    }
  }

  lemma NoEmptyPlaceholder()
    ensures PlaceholderAt("").None?
  {
  }

  predicate NoAt(s: string) {
    forall i :: 0 <= i < |s| ==> s[i] != '@'
  }

  lemma {:induction false} ScanNoAt(s: string)
    requires NoAt(s)
    ensures Scan(s) == []
    decreases |s|
  {
    if s != "" {
      ScanNoAt(s[1..]);
    }
  }

  // ---------------------------------------------------------------- substitution, then scanning

  predicate Numbered(s: string, m: Numbers) {
    AllNumbered(Lex(s), m)
  }

  function Rendered(s: string, m: Numbers): string
    requires Numbered(s, m)
  {
    Substituted(Lex(s), m)
  }

  /** What the reader should see: every citation as its marker, every other character as it stands. */
  function Intended(s: string, m: Numbers): seq<Node>
    requires Numbered(s, m)
    decreases |s|
  {
    if s == "" then [] else
    UnfoldRendered(s, m);
    match MatchPrefix(REPORT, s)
    case Some(f) => [Marker(Decimal(m[Trim(f.cite)]))] + Intended(s[f.length..], m)
    case None => [Raw([s[0]])] + Intended(s[1..], m)
  }

  lemma UnfoldRendered(s: string, m: Numbers)
    requires Numbered(s, m) && s != ""
    ensures match MatchPrefix(REPORT, s)
      case Some(f) =>
        && Numbered(s[f.length..], m) && Trim(f.cite) in m
        && Rendered(s, m) == Placeholder(m[Trim(f.cite)]) + Rendered(s[f.length..], m)
      case None =>
        Numbered(s[1..], m) && Rendered(s, m) == [s[0]] + Rendered(s[1..], m)
  {
    hide MatchPrefix, Trim, Placeholder;
    var pieces := Lex(s);
    assert forall i :: 0 <= i < |pieces[1..]| ==> pieces[1..][i] == pieces[i + 1];
    match MatchPrefix(REPORT, s)
    case Some(f) => assert pieces[0] == Cited(f.cite) && pieces[1..] == Lex(s[f.length..]);
    case None => assert pieces[0] == Plain(s[0]) && pieces[1..] == Lex(s[1..]);
  }

  /** A literal in the content that will read as a placeholder once the citations are replaced. */
  predicate LiteralAt(s: string) {
    && OPENING <= s
    && var e := DecimalsEnd(s, 6);
      e > 6 && ("@@" <= s[e..] || CitationAt(s[e..]) || ("@" <= s[e..] && CitationAt(s[e + 1..])))
  }

  predicate CitationAt(s: string) {
    MatchPrefix(REPORT, s).Some?
  }

  /** No such literal stands in the text outside the citations. */
  predicate Clean(s: string)
    decreases |s|
  {
    s == "" ||
    match MatchPrefix(REPORT, s)
    case Some(m) => Clean(s[m.length..])
    case None => !LiteralAt(s) && Clean(s[1..])
  }

  lemma LiteralRead(d: string, more: string)
    requires d != "" && forall i :: 0 <= i < |d| ==> IsDecimal(d[i])
    ensures PlaceholderAt(OPENING + d + "@@" + more) == Some(d)
    ensures (OPENING + d + "@@" + more)[|d| + 8..] == more
  {
    hide IsDecimal, DecimalsEnd;
    var s := OPENING + d + "@@" + more;
    assert OPENING <= s;
    assert s[6..6 + |d|] == d;
    assert forall k :: 6 <= k < 6 + |d| ==> s[k] == d[k - 6];
    assert s[6 + |d|] == '@' && s[7 + |d|] == '@';
    assert !IsDecimal('@') by { AtIsNoDecimal(); }
    DecimalsEndIs(s, 6, 6 + |d|);
  }

  lemma AtIsNoDecimal()
    ensures !IsDecimal('@')
  {
  }

  lemma PlaceholderRead(n: nat, more: string)
    ensures PlaceholderAt(Placeholder(n) + more) == Some(Decimal(n))
    ensures |Placeholder(n)| == |Decimal(n)| + 8
    ensures (Placeholder(n) + more)[|Decimal(n)| + 8..] == more
  {
    hide Decimal, PlaceholderAt;
    LiteralRead(Decimal(n), more);
  }

  lemma PlainHead(s: string, m: Numbers)
    requires s != "" && s[0] != '[' && Numbered(s, m)
    ensures !CitationAt(s) && Numbered(s[1..], m) && Rendered(s, m) == [s[0]] + Rendered(s[1..], m)
  {
    hide Numbered, Rendered;
    UnfoldRendered(s, m);
  }

  lemma CitedHead(s: string, m: Numbers)
    requires CitationAt(s) && Numbered(s, m)
    ensures "@@CITE" <= Rendered(s, m)
  {
    hide Numbered, Rendered, MatchPrefix;
    UnfoldRendered(s, m);
  }

  /** Text without a bracket is rendered as it stands. */
  lemma {:induction false} PlainPrefix(s: string, m: Numbers, n: nat)
    requires n <= |s| && Numbered(s, m) && forall i :: 0 <= i < n ==> s[i] != '['
    ensures Numbered(s[n..], m) && Rendered(s, m) == s[..n] + Rendered(s[n..], m)
    decreases n
  {
    hide Numbered, Rendered;
    if n == 0 {
      assert s[0..] == s && s[..0] == "";
    } else {
      PlainHead(s, m);
      PlainPrefix(s[1..], m, n - 1);
      assert s[1..][n - 1..] == s[n..] && s[..n] == [s[0]] + s[1..][..n - 1];
    }
  }

  // Rendered text that does not start with an at-sign starts with a plain character of the content.
  lemma PlainStep(s: string, m: Numbers)
    requires Numbered(s, m) && Rendered(s, m) != "" && Rendered(s, m)[0] != '@'
    ensures s != "" && !CitationAt(s) && s[0] == Rendered(s, m)[0]
    ensures Numbered(s[1..], m) && Rendered(s, m)[1..] == Rendered(s[1..], m)
  {
    NotEmpty(s, m);
    hide Numbered, Rendered, MatchPrefix;
    UnfoldRendered(s, m);
    if CitationAt(s) {
      CitedHead(s, m);
    }
  }

  lemma NotEmpty(s: string, m: Numbers)
    requires Numbered(s, m) && Rendered(s, m) != ""
    ensures s != ""
  {
  }

  /** Conversely rendered text without an at-sign stands so in the content. */
  lemma {:induction false} PlainRun(s: string, m: Numbers, n: nat)
    requires Numbered(s, m) && n <= |Rendered(s, m)| && forall i :: 0 <= i < n ==> Rendered(s, m)[i] != '@'
    ensures n <= |s| && s[..n] == Rendered(s, m)[..n]
    ensures Numbered(s[n..], m) && Rendered(s, m)[n..] == Rendered(s[n..], m)
    decreases n
  {
    hide Numbered, Rendered, CitationAt;
    var r := Rendered(s, m);
    if n == 0 {
      assert s[0..] == s && r[0..] == r;
    } else {
      PlainStep(s, m);
      assert forall i :: 0 <= i < n - 1 ==> r[1..][i] == r[i + 1];
      PlainRun(s[1..], m, n - 1);
      assert s[1..][n - 1..] == s[n..] && r[1..][n - 1..] == r[n..];
      assert s[..n] == [s[0]] + s[1..][..n - 1] && r[..n] == [r[0]] + r[1..][..n - 1];
    }
  }

  /** The rendered text starts with an at-sign where the content has one or a citation. */
  lemma AtHead(s: string, m: Numbers)
    requires Numbered(s, m)
    ensures "@" <= Rendered(s, m) <==> "@" <= s || CitationAt(s)
  {
    hide Numbered, Rendered, MatchPrefix;
    if s == "" {
      assert Rendered(s, m) == "" by { EmptyRendered(m); }
    } else {
      UnfoldRendered(s, m);
      if CitationAt(s) {
        CitedHead(s, m);
      }
    }
  }

  lemma EmptyRendered(m: Numbers)
    ensures Numbered("", m) && Rendered("", m) == ""
  {
  }

  lemma TwoAtHead(s: string, m: Numbers)
    requires Numbered(s, m)
    ensures "@@" <= Rendered(s, m) <==> "@@" <= s || CitationAt(s) || ("@" <= s && CitationAt(s[1..]))
  {
    hide Numbered, Rendered, CitationAt;
    AtHead(s, m);
    if CitationAt(s) {
      CitedHead(s, m);
    } else if "@" <= s {
      PlainHead(s, m);
      AtHead(s[1..], m);
      SecondAt(Rendered(s[1..], m));
      SecondAt(s[1..]);
      assert s == "@" + s[1..];
    }
  }

  lemma SecondAt(s: string)
    ensures "@@" <= "@" + s <==> "@" <= s
  {
    assert ("@" + s)[1..] == s;
    assert "@" <= s ==> "@@" == ("@" + s)[..2];
  }

  /** After the text that opens a placeholder, the digits and the rest are as in the content. */
  lemma AfterOpening(s: string, m: Numbers)
    requires Numbered(s, m) && OPENING <= s
    ensures var e := DecimalsEnd(s, 6);
      && Numbered(s[e..], m)
      && OPENING <= Rendered(s, m) && DecimalsEnd(Rendered(s, m), 6) == e
      && Rendered(s, m)[e..] == Rendered(s[e..], m)
  {
    hide Numbered, Rendered, CitationAt, DecimalsEnd;
    var e := DecimalsEnd(s, 6);
    assert forall i :: 0 <= i < 6 ==> s[i] == OPENING[i];
    PlainPrefix(s, m, e);
    var r, rest := Rendered(s, m), Rendered(s[e..], m);
    assert r == s[..e] + rest;
    assert forall k :: 6 <= k < e ==> r[k] == s[k];
    NoDigitHead(s[e..], m);
    assert e < |r| ==> r[e] == rest[0];
    DecimalsEndIs(r, 6, e);
  }

  lemma NoDigitHead(s: string, m: Numbers)
    requires Numbered(s, m) && (s == "" || !IsDecimal(s[0]))
    ensures Rendered(s, m) == "" || !IsDecimal(Rendered(s, m)[0])
  {
    hide Numbered, Rendered, CitationAt;
    var r := Rendered(s, m);
    if r != "" && r[0] != '@' {
      PlainStep(s, m);
    }
  }

  lemma CitedNext(s: string, m: Numbers)
    requires Numbered(s, m) && "@" <= s && CitationAt(s[1..])
    ensures |Rendered(s, m)| > 2 && Rendered(s, m)[2] == '@'
  {
    hide Numbered, Rendered, CitationAt;
    PlainHead(s, m);
    CitedHead(s[1..], m);
  }

  /** A rendered opening was an opening in the content, unless a citation stands there. */
  lemma OpeningWasPlain(s: string, m: Numbers)
    requires Numbered(s, m) && !CitationAt(s) && OPENING <= Rendered(s, m)
    ensures OPENING <= s
  {
    hide Numbered, Rendered, CitationAt;
    var r := Rendered(s, m);
    assert r[0] == '@' && r[1] == '@' && forall i :: 2 <= i < 6 ==> r[i] == OPENING[i] && OPENING[i] != '@';
    TwoAtHead(s, m);
    if s != "" && s[0] == '@' && CitationAt(s[1..]) {
      CitedNext(s, m);
    }
    assert "@@" <= s;
    PlainPrefix(s, m, 2);
    var t := Rendered(s[2..], m);
    assert forall i :: 0 <= i < 4 ==> t[i] == r[i + 2];
    PlainRun(s[2..], m, 4);
    assert forall i :: 2 <= i < 6 ==> s[i] == s[2..][..4][i - 2];
  }

  /** A placeholder is read at a plain character exactly when such a literal stands there in the content. */
  lemma ReadIffLiteral(s: string, m: Numbers)
    requires Numbered(s, m) && !CitationAt(s)
    ensures PlaceholderAt(Rendered(s, m)).Some? <==> LiteralAt(s)
  {
    hide Numbered, Rendered, CitationAt, DecimalsEnd;
    if OPENING <= Rendered(s, m) {
      OpeningWasPlain(s, m);
    }
    if OPENING <= s {
      AfterOpening(s, m);
      var e := DecimalsEnd(s, 6);
      TwoAtHead(s[e..], m);
      assert s[e..] != "" ==> s[e..][1..] == s[e + 1..];
      assert "@@" <= Rendered(s, m)[e..] <==>
        e + 2 <= |Rendered(s, m)| && Rendered(s, m)[e] == '@' && Rendered(s, m)[e + 1] == '@';
    }
  }

  /**
   * After substitution and scanning, every citation is exactly one marker with its own number and all other
   * text is untouched, if and only if the content outside its citations has no literal placeholder.
   */
  lemma {:induction false} EveryCitationOneMarker(s: string, m: Numbers)
    requires Numbered(s, m)
    ensures ToMarkers(Rendered(s, m)) == Intended(s, m) <==> Clean(s)
    decreases |s|
  {
    hide Numbered, Rendered, MatchPrefix, ToMarkers, Intended, Clean, LiteralAt;
    if s == "" {
      EmptyRendered(m);
      NothingMarked(m);
    } else {
      match MatchPrefix(REPORT, s)
      case Some(f) =>
        CitedStep(s, m, f);
        EveryCitationOneMarker(s[f.length..], m);
      case None =>
        PlainMarkerStep(s, m);
        EveryCitationOneMarker(s[1..], m);
    }
  }

  lemma NothingMarked(m: Numbers)
    requires Numbered("", m)
    ensures ToMarkers("") == [] && Intended("", m) == [] && Clean("")
  {
  }

  lemma SameAfter(x: Node, a: seq<Node>, b: seq<Node>)
    ensures [x] + a == [x] + b <==> a == b
  {
    assert ([x] + a)[1..] == a && ([x] + b)[1..] == b;
  }

  lemma CitedStep(s: string, m: Numbers, f: Match)
    requires s != "" && Numbered(s, m) && MatchPrefix(REPORT, s) == Some(f)
    ensures Numbered(s[f.length..], m)
    ensures ToMarkers(Rendered(s, m)) == Intended(s, m)
        <==> ToMarkers(Rendered(s[f.length..], m)) == Intended(s[f.length..], m)
    ensures Clean(s) == Clean(s[f.length..])
  {
    hide Numbered, Rendered, MatchPrefix, PlaceholderAt, Placeholder, Decimal;
    UnfoldRendered(s, m);
    PlaceholderRead(m[Trim(f.cite)], Rendered(s[f.length..], m));
    SameAfter(Marker(Decimal(m[Trim(f.cite)])), ToMarkers(Rendered(s[f.length..], m)), Intended(s[f.length..], m));
  }

  lemma PlainMarkerStep(s: string, m: Numbers)
    requires s != "" && Numbered(s, m) && MatchPrefix(REPORT, s).None?
    ensures Numbered(s[1..], m)
    ensures ToMarkers(Rendered(s, m)) == Intended(s, m)
       <==> !LiteralAt(s) && ToMarkers(Rendered(s[1..], m)) == Intended(s[1..], m)
    ensures Clean(s) == (!LiteralAt(s) && Clean(s[1..]))
  {
    hide Numbered, Rendered, MatchPrefix, PlaceholderAt, LiteralAt;
    UnfoldRendered(s, m);
    ReadIffLiteral(s, m);
    assert ([s[0]] + Rendered(s[1..], m))[1..] == Rendered(s[1..], m);
    SameAfter(Raw([s[0]]), ToMarkers(Rendered(s[1..], m)), Intended(s[1..], m));
    if LiteralAt(s) {
      assert ToMarkers(Rendered(s, m))[0].Marker? && Intended(s, m)[0].Raw?;
    }
  }

  /** A literal placeholder, in whatever digits, shows up as a marker although the content has no citation at all. */
  lemma LiteralIsMarked(d: string, m: Numbers)
    requires d != "" && forall i :: 0 <= i < |d| ==> IsDecimal(d[i])
    requires Numbered(OPENING + d + "@@", m)
    ensures Keys(Lex(OPENING + d + "@@")) == [] && !Clean(OPENING + d + "@@")
    ensures ToMarkers(Rendered(OPENING + d + "@@", m)) == [Marker(d)]
  {
    var s := OPENING + d + "@@";
    LiteralHasNoBracket(d);
    hide *;
    NoKeys(s);
    PlainIsItself(s, m);
    LiteralMarks(d);
    FirstIsRaw(s, m);
    EveryCitationOneMarker(s, m);
  }

  lemma LiteralHasNoBracket(d: string)
    requires forall i :: 0 <= i < |d| ==> IsDecimal(d[i])
    ensures var s := OPENING + d + "@@"; s != "" && forall i :: 0 <= i < |s| ==> s[i] != '['
  {
    NoBracketIsDecimal();
    hide IsDecimal;
    var s := OPENING + d + "@@";
    assert forall i :: 0 <= i < |s| ==> s[i] in OPENING || s[i] in d || s[i] == '@';
  }

  lemma PlainIsItself(s: string, m: Numbers)
    requires Numbered(s, m) && forall i :: 0 <= i < |s| ==> s[i] != '['
    ensures Rendered(s, m) == s
  {
    hide Numbered, Rendered;
    PlainPrefix(s, m, |s|);
    EmptyRendered(m);
    assert s[|s|..] == "" && s[..|s|] == s;
  }

  lemma LiteralMarks(d: string)
    requires d != "" && forall i :: 0 <= i < |d| ==> IsDecimal(d[i])
    ensures ToMarkers(OPENING + d + "@@") == [Marker(d)]
  {
    hide PlaceholderAt, IsDecimal;
    LiteralRead(d, "");
    var s := OPENING + d + "@@";
    assert s + "" == s;
    assert s[|d| + 8..] == "" && ToMarkers("") == [];
  }

  lemma NoBracketIsDecimal()
    ensures !IsDecimal('[')
  {
  }

  /** For instance in the Arabic-Indic digits, which `\d` matches too. */
  lemma ArabicDigitsAreMarked(m: Numbers)
    requires Numbered("@@CITE\U{0663}@@", m)
    ensures !Clean("@@CITE\U{0663}@@") && ToMarkers(Rendered("@@CITE\U{0663}@@", m)) == [Marker("\U{0663}")]
  {
    hide *;
    ArabicThree();
    LiteralIsMarked("\U{0663}", m);
  }

  lemma ArabicThree()
    ensures IsDecimal('\U{0663}') && OPENING + "\U{0663}" + "@@" == "@@CITE\U{0663}@@"
  {
  }

  lemma {:induction false} NoKeys(s: string)
    requires forall i :: 0 <= i < |s| ==> s[i] != '['
    ensures Keys(Lex(s)) == []
    decreases |s|
  {
    hide MatchPrefix;
    if s != "" {
      NoKeys(s[1..]);
      assert MatchPrefix(REPORT, s).None?;
      UnfoldKeys(Plain(s[0]), Lex(s[1..]));
    }
  }

  lemma FirstIsRaw(s: string, m: Numbers)
    requires s != "" && s[0] != '[' && Numbered(s, m)
    ensures Intended(s, m) != [] && Intended(s, m)[0] == Raw([s[0]])
  {
    hide MatchPrefix, Numbered;
  }

  // ---------------------------------------------------------------- the numbers in order

  function NumbersOf(keys: seq<Citation>, m: Numbers): seq<string>
    requires forall c :: c in keys ==> c in m
  {
    if keys == [] then [] else
    assert forall c :: c in keys[1..] ==> c in keys;
    [Decimal(m[keys[0]])] + NumbersOf(keys[1..], m)
  }

  lemma {:induction false} KeysNumbered(pieces: seq<Piece>, m: Numbers)
    requires AllNumbered(pieces, m)
    ensures forall c :: c in Keys(pieces) ==> c in m
  {
    hide Trim;
    if pieces != [] {
      KeysNumbered(pieces[1..], m);
      assert forall c :: c in Keys(pieces) ==> c in KeyOf(pieces[0]) || c in Keys(pieces[1..]);
    }
  }

  lemma {:induction false} IntendedMarks(s: string, m: Numbers)
    requires Numbered(s, m)
    ensures forall c :: c in Keys(Lex(s)) ==> c in m
    ensures Marks(Intended(s, m)) == NumbersOf(Keys(Lex(s)), m)
    decreases |s|
  {
    KeysNumbered(Lex(s), m);
    if s != "" {
      hide Numbered, Rendered, MatchPrefix, Trim, Decimal;
      UnfoldRendered(s, m);
      UnfoldLex(s);
      match MatchPrefix(REPORT, s)
      case Some(f) =>
        IntendedMarks(s[f.length..], m);
        UnfoldKeys(Cited(f.cite), Lex(s[f.length..]));
        UnfoldMarks(Marker(Decimal(m[Trim(f.cite)])), Intended(s[f.length..], m));
      case None =>
        IntendedMarks(s[1..], m);
        UnfoldKeys(Plain(s[0]), Lex(s[1..]));
        UnfoldMarks(Raw([s[0]]), Intended(s[1..], m));
        assert [] + Keys(Lex(s[1..])) == Keys(Lex(s[1..]));
    }
  }

  lemma UnfoldKeys(p: Piece, rest: seq<Piece>)
    ensures Keys([p] + rest) == KeyOf(p) + Keys(rest)
  {
    assert ([p] + rest)[1..] == rest;
  }

  lemma UnfoldMarks(n: Node, rest: seq<Node>)
    ensures Marks([n] + rest) == MarkOf(n) + Marks(rest)
  {
    assert ([n] + rest)[1..] == rest;
  }

  /** Content that never spells out the opening of a placeholder is clean. */
  lemma {:induction false} NoOpeningIsClean(s: string)
    requires forall i :: 0 <= i <= |s| ==> !(OPENING <= s[i..])
    ensures Clean(s)
    decreases |s|
  {
    hide MatchPrefix, DecimalsEnd;
    if s != "" {
      var k := match MatchPrefix(REPORT, s) case Some(m) => m.length case None => 1;
      forall i | 0 <= i <= |s[k..]| ensures !(OPENING <= s[k..][i..]) {
        assert s[k..][i..] == s[k + i..];
      }
      assert s[0..] == s;
      NoOpeningIsClean(s[k..]);
    }
  }

  // ---------------------------------------------------------------- putting the citations back

  /** What a reader gets who replaces every marker by the entry of the citation list with its number. */
  function Restored(html: seq<Node>, list: seq<Citation>): seq<Piece> {
    if html == [] then [] else RestoredNode(html[0], list) + Restored(html[1..], list)
  }

  function RestoredNode(n: Node, list: seq<Citation>): seq<Piece> {
    match n
    case Raw(text) => seq(|text|, i requires 0 <= i < |text| => Plain(text[i]))
    case Marker(digits) => if 1 <= Value(digits) <= |list| then [Cited(list[Value(digits) - 1])] else []
  }

  /** The content with the whitespace around the parts of its citations removed. */
  function Trimmed(pieces: seq<Piece>): seq<Piece> {
    if pieces == [] then [] else [TrimPiece(pieces[0])] + Trimmed(pieces[1..])
  }

  function TrimPiece(p: Piece): Piece {
    if p.Cited? then Cited(Trim(p.cite)) else p
  }

  lemma RestoredCons(n: Node, rest: seq<Node>, list: seq<Citation>)
    ensures Restored([n] + rest, list) == RestoredNode(n, list) + Restored(rest, list)
  {
    hide RestoredNode;
    assert ([n] + rest)[1..] == rest;
  }

  lemma TrimmedCons(p: Piece, rest: seq<Piece>)
    ensures Trimmed([p] + rest) == [TrimPiece(p)] + Trimmed(rest)
  {
    hide TrimPiece;
    assert ([p] + rest)[1..] == rest;
  }

  lemma RestoredMarker(m: Numbers, list: seq<Citation>, c: Citation)
    requires NumbersFollow(m, list) && c in m
    ensures RestoredNode(Marker(Decimal(m[c])), list) == [Cited(c)]
  {
    hide Decimal, Value;
    DecimalValue(m[c]);
    var i :| 0 <= i < |list| && list[i] == c;
  }

  lemma {:induction false} IntendedRestores(s: string, m: Numbers, list: seq<Citation>)
    requires Numbered(s, m) && NumbersFollow(m, list)
    ensures Restored(Intended(s, m), list) == Trimmed(Lex(s))
    decreases |s|
  {
    if s != "" {
      hide Numbered, Rendered, MatchPrefix, Trim, Decimal, NumbersFollow, Value;
      UnfoldRendered(s, m);
      UnfoldLex(s);
      match MatchPrefix(REPORT, s)
      case Some(f) =>
        IntendedRestores(s[f.length..], m, list);
        RestoredCons(Marker(Decimal(m[Trim(f.cite)])), Intended(s[f.length..], m), list);
        RestoredMarker(m, list, Trim(f.cite));
        TrimmedCons(Cited(f.cite), Lex(s[f.length..]));
      case None =>
        IntendedRestores(s[1..], m, list);
        RestoredCons(Raw([s[0]]), Intended(s[1..], m), list);
        TrimmedCons(Plain(s[0]), Lex(s[1..]));
        assert RestoredNode(Raw([s[0]]), list) == [Plain(s[0])];
    }
  }

  /**
   * Putting the listed citations back for the numbers restores the content, up to whitespace inside its
   * citations: numbering and substitution lose nothing else.
   */
  lemma CitationsRestored(s: string, keys: seq<Citation>)
    requires Numbered(s, NoteAll(map[], keys)) && Clean(s)
    ensures Restored(ToMarkers(Rendered(s, NoteAll(map[], keys))), FirstOccurrences(keys)) == Trimmed(Lex(s))
  {
    hide *;
    EveryCitationOneMarker(s, NoteAll(map[], keys));
    FirstOccurrenceNumbers(keys);
    IntendedRestores(s, NoteAll(map[], keys), FirstOccurrences(keys));
  }
}
