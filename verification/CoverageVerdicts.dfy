/** What the coverage check counts, said of the paragraphs a text is made of. */
module CoverageVerdicts {
  import opened Text
  import opened Enforcer

  // ---------------------------------------------------------------- cutting at blank lines

  predicate TwoNewlines(s: string, k: int) {
    0 <= k < |s| - 1 && s[k] == '\n' && s[k + 1] == '\n'
  }

  /** The first two newlines in a row stand right behind the piece. */
  predicate EndsPiece(piece: string) {
    forall k :: 0 <= k < |piece| ==> !TwoNewlines(piece + "\n\n", k)
  }

  predicate LastPiece(piece: string) {
    forall k :: 0 <= k < |piece| ==> !TwoNewlines(piece, k)
  }

  /** The pieces of a text: joined by two newlines they are the text, and none reaches past the first two. */
  ghost predicate IsBlankSplit(s: string, pieces: seq<string>)
    decreases |pieces|
  {
    && pieces != []
    && if |pieces| == 1 then pieces[0] == s && LastPiece(s)
       else
         && EndsPiece(pieces[0])
         && |pieces[0]| + 2 <= |s| && s[..|pieces[0]| + 2] == pieces[0] + "\n\n"
         && IsBlankSplit(s[|pieces[0]| + 2..], pieces[1..])
  }

  lemma {:induction false} SplitBlankExact(s: string, i: nat)
    requires i <= |s| && forall k :: 0 <= k < i ==> !TwoNewlines(s, k)
    ensures IsBlankSplit(s, SplitBlank(s, i))
    decreases |s|, |s| - i
  {
    if i + 1 >= |s| {
      assert LastPiece(s);
    } else if s[i] == '\n' && s[i + 1] == '\n' {
      var rest := SplitBlank(s[i + 2..], 0);
      SplitBlankExact(s[i + 2..], 0);
      assert s[..i + 2] == s[..i] + "\n\n";
      assert forall k :: 0 <= k < i ==> TwoNewlines(s[..i] + "\n\n", k) == TwoNewlines(s, k);
      assert ([s[..i]] + rest)[1..] == rest;
      assert rest != [];
    } else {
      SplitBlankExact(s, i + 1);
    }
  }

  lemma {:induction false} BlankSplitUnique(s: string, a: seq<string>, b: seq<string>)
    requires IsBlankSplit(s, a) && IsBlankSplit(s, b)
    ensures a == b
    decreases |a|
  {
    FirstIsSame(s, a, b);
    if |a| > 1 {
      BlankSplitUnique(s[|a[0]| + 2..], a[1..], b[1..]);
      assert a == [a[0]] + a[1..] && b == [b[0]] + b[1..];
    } else {
      assert a == [a[0]] && b == [b[0]];
    }
  }

  lemma FirstIsSame(s: string, a: seq<string>, b: seq<string>)
    requires IsBlankSplit(s, a) && IsBlankSplit(s, b)
    ensures a[0] == b[0] && (|a| == 1 <==> |b| == 1)
  {
    NoShorterFirst(s, a, b);
    NoShorterFirst(s, b, a);
  }

  lemma NoShorterFirst(s: string, a: seq<string>, b: seq<string>)
    requires IsBlankSplit(s, a) && IsBlankSplit(s, b)
    ensures |a| > 1 ==> |b| > 1 && |b[0]| <= |a[0]|
    ensures |a| > 1 && |b| > 1 && |a[0]| == |b[0]| ==> a[0] == b[0]
  {
    if |a| > 1 {
      var n := |a[0]|;
      assert s[n] == s[..n + 2][n] && s[n + 1] == s[..n + 2][n + 1];
      assert TwoNewlines(s, n);
      if |b| > 1 {
        assert s[..|b[0]| + 2] == b[0] + "\n\n";
        assert forall k :: 0 <= k < |b[0]| + 2 ==> s[k] == (b[0] + "\n\n")[k];
        assert n < |b[0]| ==> TwoNewlines(b[0] + "\n\n", n);
        assert a[0] == s[..n + 2][..n] && b[0] == s[..|b[0]| + 2][..|b[0]|];
      }
    }
  }

  /** `content.split("\n\n")` leaves no choice. */
  lemma BlankSplitIs(s: string, pieces: seq<string>)
    requires IsBlankSplit(s, pieces)
    ensures SplitBlank(s, 0) == pieces
  {
    hide SplitBlank, IsBlankSplit;
    SplitBlankExact(s, 0);
    BlankSplitUnique(s, SplitBlank(s, 0), pieces);
  }

  // ---------------------------------------------------------------- paragraphs

  predicate IsBlock(p: string) {
    p != "" && VisibleEnds(p) && LastPiece(p)
  }

  lemma BlockEndsPiece(p: string)
    requires IsBlock(p)
    ensures EndsPiece(p) && Strip(p) == p
  {
    NewlineIsBlank();
    hide IsSpace;
    forall k | 0 <= k < |p| ensures !TwoNewlines(p + "\n\n", k) {
      if k + 1 < |p| {
        assert !TwoNewlines(p, k);
      }
    }
    StripPadded("", p, "");
    assert "" + p + "" == p;
  }

  lemma NewlineIsBlank()
    ensures IsSpace('\n')
  {
  }

  predicate AreBlocks(ps: seq<string>) {
    forall i :: 0 <= i < |ps| ==> IsBlock(ps[i])
  }

  lemma {:induction false} JoinedBlankSplit(ps: seq<string>)
    requires ps != [] && AreBlocks(ps)
    ensures IsBlankSplit(Join("\n\n", ps), ps)
  {
    hide IsBlock, EndsPiece, LastPiece;
    if |ps| == 1 {
      assert LastPiece(ps[0]) by { BlockIsLast(ps[0]); }
    } else {
      var s, rest := Join("\n\n", ps), Join("\n\n", ps[1..]);
      BlockEndsPiece(ps[0]);
      JoinedBlankSplit(ps[1..]);
      assert s[..|ps[0]| + 2] == ps[0] + "\n\n" && s[|ps[0]| + 2..] == rest;
    }
  }

  lemma BlockIsLast(p: string)
    requires IsBlock(p)
    ensures LastPiece(p)
  {
  }

  lemma {:induction false} BlocksAreKept(ps: seq<string>)
    requires AreBlocks(ps)
    ensures StripNonBlank(ps) == ps
  {
    hide Strip, IsBlock;
    if ps != [] {
      BlockEndsPiece(ps[0]);
      BlockNotEmpty(ps[0]);
      BlocksAreKept(ps[1..]);
      assert ps == [ps[0]] + ps[1..];
    }
  }

  lemma BlockNotEmpty(p: string)
    requires IsBlock(p)
    ensures p != ""
  {
  }

  /** Paragraphs with a blank line between them are what the coverage check looks at. */
  lemma ParagraphsOfBlocks(ps: seq<string>)
    requires ps != [] && AreBlocks(ps)
    ensures Paragraphs(Join("\n\n", ps)) == ps
  {
    hide *;
    JoinedBlankSplit(ps);
    BlankSplitIs(Join("\n\n", ps), ps);
    BlocksAreKept(ps);
    ParagraphsAre(Join("\n\n", ps));
  }

  lemma ParagraphsAre(content: string)
    ensures Paragraphs(content) == StripNonBlank(SplitBlank(content, 0))
  {
    hide StripNonBlank, SplitBlank;
  }

  /** Every other text: its paragraphs are the visible pieces, stripped. */
  lemma {:induction false} VisiblePieces(pieces: seq<string>, p: string)
    ensures p in StripNonBlank(pieces) <==> p != "" && exists q :: q in pieces && Strip(q) == p
  {
    hide Strip;
    if pieces != [] {
      VisiblePieces(pieces[1..], p);
      assert pieces == [pieces[0]] + pieces[1..];
    }
  }

  lemma ParagraphsExact(content: string, pieces: seq<string>, p: string)
    requires IsBlankSplit(content, pieces)
    ensures p in Paragraphs(content) <==> p != "" && exists q :: q in pieces && Strip(q) == p
  {
    hide *;
    BlankSplitIs(content, pieces);
    ParagraphsAre(content);
    VisiblePieces(pieces, p);
  }

  // ---------------------------------------------------------------- counting claims

  /** The places of the paragraphs with a property. */
  ghost function Places(f: string -> bool, ps: seq<string>): set<nat> {
    set i: nat | i < |ps| && f(ps[i])
  }

  lemma {:induction false} FilterPlaces(f: string -> bool, ps: seq<string>)
    ensures |Filter(f, ps)| == |Places(f, ps)|
  {
    if ps == [] {
      assert Places(f, ps) == {};
    } else {
      FilterPlaces(f, ps[1..]);
      PlacesShift(f, ps);
    }
  }

  lemma PlacesShift(f: string -> bool, ps: seq<string>)
    requires ps != []
    ensures |Places(f, ps)| == |Places(f, ps[1..])| + if f(ps[0]) then 1 else 0
  {
    var rest, shifted := Places(f, ps[1..]), set i: nat | i in Places(f, ps[1..]) :: i + 1;
    SameSize(rest, shifted);
    if f(ps[0]) {
      assert Places(f, ps) == shifted + {0};
    } else {
      assert Places(f, ps) == shifted;
    }
  }

  lemma {:induction false} SameSize(a: set<nat>, b: set<nat>)
    requires forall i :: i in b <==> i > 0 && i - 1 in a
    ensures |a| == |b|
    decreases |a|
  {
    if a == {} {
      assert b == {};
    } else {
      var x :| x in a;
      assert x + 1 in b;
      SameSize(a - {x}, b - {x + 1});
    }
  }

  lemma {:induction false} FilterTwice(f: string -> bool, g: string -> bool, ps: seq<string>)
    ensures Filter(g, Filter(f, ps)) == Filter(p => f(p) && g(p), ps)
  {
    if ps != [] {
      FilterTwice(f, g, ps[1..]);
      if f(ps[0]) {
        assert ([ps[0]] + Filter(f, ps[1..]))[1..] == Filter(f, ps[1..]);
      } else {
        assert [] + Filter(f, ps[1..]) == Filter(f, ps[1..]);
      }
    }
  }

  // Something is claimed in it: there is a digit, or one of the verbs as a word.
  ghost predicate MakesClaim(u: Unicode, p: string) {
    || (exists i :: 0 <= i < |p| && u.digit(p[i]))
    || (exists before, verb, after :: VerbBetween(u, p, before, verb, after))
  }

  lemma ClaimExact(u: Unicode, p: string)
    ensures IsClaim(u, p) <==> MakesClaim(u, p)
  {
    hide HasVerb, VerbBetween;
    HasVerbExact(u, p);
  }

  ghost predicate IsUncitedClaim(u: Unicode, p: string) {
    MakesClaim(u, p) && !IsCited(p)
  }

  lemma ClaimsOfText(u: Unicode, ps: seq<string>)
    requires ps != [] && AreBlocks(ps)
    ensures Claims(u, Join("\n\n", ps)) == Filter(p => IsClaim(u, p), ps)
    ensures DigitClaims(u, Join("\n\n", ps)) == Filter(p => HasDigit(u, p), ps)
  {
    hide Filter, AreBlocks, Paragraphs, Join;
    ParagraphsOfBlocks(ps);
  }

  lemma UncitedPlaces(f: string -> bool, ps: seq<string>)
    ensures |Uncited(Filter(f, ps))| == |Places(p => f(p) && !IsCited(p), ps)|
  {
    hide Filter, Places, IsCited;
    FilterTwice(f, p => !IsCited(p), ps);
    assert Uncited(Filter(f, ps)) == Filter(p => f(p) && !IsCited(p), ps) by {
      FilterSame(p => f(p) && ((q: string) => !IsCited(q))(p), p => f(p) && !IsCited(p), ps);
    }
    FilterPlaces(p => f(p) && !IsCited(p), ps);
  }

  lemma {:induction false} FilterSame(f: string -> bool, g: string -> bool, ps: seq<string>)
    requires forall p :: f(p) == g(p)
    ensures Filter(f, ps) == Filter(g, ps)
  {
    if ps != [] {
      FilterSame(f, g, ps[1..]);
    }
  }

  /** A text passes the coverage check if and only if at most one of its claims in twenty stands without a citation. */
  lemma CoverageOfText(u: Unicode, ps: seq<string>)
    requires ps != [] && AreBlocks(ps)
    ensures var claims := set i: nat | i < |ps| && MakesClaim(u, ps[i]);
      var uncited := set i: nat | i < |ps| && IsUncitedClaim(u, ps[i]);
      Coverage(Claims(u, Join("\n\n", ps))) >= 0.95 <==> 20 * |uncited| <= |claims|
  {
    hide Filter, AreBlocks, IsClaim, MakesClaim, Coverage, Uncited, IsCited, Claims, Join;
    var f := p => IsClaim(u, p);
    ClaimsOfText(u, ps);
    CoverageThreshold(Filter(f, ps));
    UncitedPlaces(f, ps);
    FilterPlaces(f, ps);
    forall i: nat | i < |ps| ensures IsClaim(u, ps[i]) <==> MakesClaim(u, ps[i]) {
      ClaimExact(u, ps[i]);
    }
    assert Places(f, ps) == set i: nat | i < |ps| && MakesClaim(u, ps[i]);
    assert Places(p => f(p) && !IsCited(p), ps) == set i: nat | i < |ps| && IsUncitedClaim(u, ps[i]);
  }

  /** So an output with more uncited claims than that is never approved. */
  lemma UncitedClaimsFail(u: Unicode, pat: Patterns, exact: string -> bool, semantic: string -> bool, ps: seq<string>)
    requires ps != [] && AreBlocks(ps)
    requires 20 * |set i: nat | i < |ps| && IsUncitedClaim(u, ps[i])| > |set i: nat | i < |ps| && MakesClaim(u, ps[i])|
    ensures !Acceptable(u, pat, exact, semantic, Join("\n\n", ps))
  {
    hide *;
    CoverageOfText(u, ps);
    if Acceptable(u, pat, exact, semantic, Join("\n\n", ps)) {
      AcceptableCoverage(u, pat, exact, semantic, Join("\n\n", ps));
    }
  }

  lemma AcceptableCoverage(u: Unicode, pat: Patterns, exact: string -> bool, semantic: string -> bool, content: string)
    requires Acceptable(u, pat, exact, semantic, content)
    ensures Coverage(Claims(u, content)) >= 0.95
  {
    hide Coverage, Claims;
  }

  ghost function Figures(u: Unicode, ps: seq<string>): set<nat> {
    set i: nat | i < |ps| && exists k :: 0 <= k < |ps[i]| && u.digit(ps[i][k])
  }

  ghost function CitedFigures(u: Unicode, ps: seq<string>): set<nat> {
    set i | i in Figures(u, ps) && i < |ps| && IsCited(ps[i])
  }

  lemma FiguresCounted(u: Unicode, ps: seq<string>)
    ensures var f := p => HasDigit(u, p);
      && |Filter(f, ps)| == |Figures(u, ps)|
      && |Uncited(Filter(f, ps))| == |Figures(u, ps)| - |CitedFigures(u, ps)|
  {
    hide Filter, Uncited, IsCited;
    var f := p => HasDigit(u, p);
    FilterPlaces(f, ps);
    UncitedPlaces(f, ps);
    assert Places(f, ps) == Figures(u, ps);
    assert Places(p => f(p) && !IsCited(p), ps) == Figures(u, ps) - CitedFigures(u, ps);
    assert CitedFigures(u, ps) <= Figures(u, ps);
    SetMinus(Figures(u, ps), CitedFigures(u, ps));
  }

  lemma SetMinus(a: set<nat>, b: set<nat>)
    requires b <= a
    ensures |a - b| == |a| - |b|
  {
    assert a == b + (a - b);
  }

  /** The coverage that is reported is the share of cited paragraphs among those with digits. */
  lemma ReportedCoverage(u: Unicode, ps: seq<string>)
    requires ps != [] && AreBlocks(ps)
    ensures var c, n := Coverage(DigitClaims(u, Join("\n\n", ps))), |Figures(u, ps)|;
      if n == 0 then c == 1.0 else c * n as real == |CitedFigures(u, ps)| as real
  {
    hide *;
    var claims := Filter(p => HasDigit(u, p), ps);
    ClaimsOfText(u, ps);
    FiguresCounted(u, ps);
    CitedOrNot(claims);
    CoverageIs(claims);
  }

  lemma CoverageIs(claims: seq<string>)
    ensures claims == [] ==> Coverage(claims) == 1.0
    ensures Coverage(claims) * |claims| as real == |Cited(claims)| as real || claims == []
  {
    hide Cited;
    if claims != [] {
      var a, n := |Cited(claims)| as real, |claims| as real;
      assert a / n * n == a;
    }
  }
}
