/** Citations with any whitespace behind the comma and the colon, or none. */
module SpacedCitations {
  import opened Text
  import opened CitationGrammar

  function Spaced(c: Citation, gap: string, gap': string): string {
    "[" + c.doc + "," + gap + c.section + "]:" + gap' + "\"" + c.quote + "\""
  }

  function Head(c: Citation, gap: string): string {
    c.doc + "," + gap + c.section
  }

  lemma NoLaterComma(c: Citation, gap: string, k: nat)
    requires Printable(c) && AllSpace(gap) && |c.doc| < k < |Head(c, gap)| - 1
    ensures Head(c, gap)[k] != ','
  {
    assert !IsSpace(',');
    hide IsSpace;
    var j := k - |c.doc| - 1;
    assert Head(c, gap)[k] == (gap + c.section)[j];
    if j >= |gap| {
      assert c.section[..|c.section| - 1][j - |gap|] == c.section[j - |gap|];
    }
  }

  // The comma behind the document is the last one that can split the label.
  lemma SpacedSplit(c: Citation, gap: string)
    requires Printable(c) && AllSpace(gap)
    ensures SplitPoint(ENFORCER, Head(c, gap), |Head(c, gap)|) == |c.doc|
  {
    var head := Head(c, gap);
    SplitPointIsLast(ENFORCER, head, |head|);
    assert SplitsAt(ENFORCER, head, |c.doc|);
    hide IsSpace, Head, SplitPoint;
    forall k: nat | |c.doc| < k < |head| - 1 ensures head[k] != ',' {
      NoLaterComma(c, gap, k);
    }
  }

  lemma SpacedSection(gap: string, section: string)
    requires AllSpace(gap) && section != "" && (|section| == 1 || !IsSpace(section[0]))
    ensures SectionPart(gap + section) == section
  {
    var rest := gap + section;
    assert forall k :: 0 <= k < |gap| ==> rest[k] == gap[k];
    assert rest[|gap|] == section[0];
    hide IsSpace;
    SkipSpaceIs(rest, 0, if IsSpace(section[0]) then |rest| else |gap|);
    assert rest[|gap|..] == section;
  }

  lemma SpacedChars(c: Citation, gap: string, gap': string, more: string, s: string, r: nat, q: nat, e: nat)
    requires s == Spaced(c, gap, gap') + more
    requires r == |Head(c, gap)| + 1 && q == r + 2 + |gap'| && e == q + 1 + |c.quote|
    ensures 1 <= r < q < e < |s| && |Spaced(c, gap, gap')| == e + 1
    ensures s[0] == '[' && s[r] == ']' && s[r + 1] == ':' && s[q] == '"' && s[e] == '"'
    ensures s[1..r] == Head(c, gap) && s[r + 2..q] == gap' && s[q + 1..e] == c.quote
  {
    hide *;
    SpacedMarks(c, gap, gap', more, s, r, q, e);
    SpacedLabel(c, gap, gap', more, s, r);
    SpacedQuote(c, gap, gap', more, s, r, q, e);
  }

  lemma SpacedMarks(c: Citation, gap: string, gap': string, more: string, s: string, r: nat, q: nat, e: nat)
    requires s == Spaced(c, gap, gap') + more
    requires r == |Head(c, gap)| + 1 && q == r + 2 + |gap'| && e == q + 1 + |c.quote|
    ensures 1 <= r < q < e < |s| && |Spaced(c, gap, gap')| == e + 1
    ensures s[0] == '[' && s[r] == ']' && s[r + 1] == ':' && s[q] == '"' && s[e] == '"'
  {
    assert |Head(c, gap)| == |c.doc| + 1 + |gap| + |c.section|;
  }

  lemma SpacedLabel(c: Citation, gap: string, gap': string, more: string, s: string, r: nat)
    requires s == Spaced(c, gap, gap') + more && r == |Head(c, gap)| + 1
    ensures r <= |s| && s[1..r] == Head(c, gap)
  {
    assert s == "[" + Head(c, gap) + ("]:" + gap' + "\"" + c.quote + "\"" + more);
  }

  lemma SpacedQuote(c: Citation, gap: string, gap': string, more: string, s: string, r: nat, q: nat, e: nat)
    requires s == Spaced(c, gap, gap') + more
    requires r == |Head(c, gap)| + 1 && q == r + 2 + |gap'| && e == q + 1 + |c.quote|
    ensures e <= |s| && s[r + 2..q] == gap' && s[q + 1..e] == c.quote
  {
    var start := "[" + Head(c, gap) + "]:";
    assert s == start + gap' + ("\"" + c.quote + "\"" + more);
    assert s == start + gap' + "\"" + c.quote + ("\"" + more);
  }

  lemma BracketAt(s: string, r: nat, head: string)
    requires 1 <= r < |s| && s[1..r] == head && s[r] == ']' && ']' !in head
    ensures IndexOf(s, ']', 1) == r
  {
    hide IndexOf;
    assert forall k :: 1 <= k < r ==> s[k] == s[1..r][k - 1];
    IndexOfIs(s, ']', 1, r);
  }

  lemma QuoteAt(s: string, n: nat, q: nat, gap: string)
    requires n <= q < |s| && s[n..q] == gap && AllSpace(gap) && s[q] == '"'
    ensures SkipSpace(s, n) == q
  {
    assert !IsSpace('"');
    hide SkipSpace, IsSpace;
    assert forall k :: n <= k < q ==> s[k] == s[n..q][k - n];
    SkipSpaceIs(s, n, q);
  }

  lemma QuoteEndsAt(s: string, n: nat, e: nat, quote: string)
    requires n <= e < |s| && s[n..e] == quote && s[e] == '"' && '"' !in quote
    ensures IndexOf(s, '"', n) == e
  {
    hide IndexOf;
    assert forall k :: n <= k < e ==> s[k] == s[n..e][k - n];
    IndexOfIs(s, '"', n, e);
  }

  lemma SpacedPlaces(c: Citation, gap: string, gap': string, more: string, s: string, r: nat, q: nat, e: nat)
    requires Printable(c) && AllSpace(gap) && AllSpace(gap') && s == Spaced(c, gap, gap') + more
    requires r == |Head(c, gap)| + 1 && q == r + 2 + |gap'| && e == q + 1 + |c.quote|
    ensures Locate(s) == Some(Places(r, q, e))
  {
    assert '"' !in c.quote;
    NoBracketInHead(c, gap);
    hide *;
    SpacedChars(c, gap, gap', more, s, r, q, e);
    BracketAt(s, r, Head(c, gap));
    QuoteAt(s, r + 2, q, gap');
    QuoteEndsAt(s, q + 1, e, c.quote);
    LocateIs(s, Places(r, q, e));
  }

  lemma NoBracketInHead(c: Citation, gap: string)
    requires Printable(c) && AllSpace(gap)
    ensures ']' !in Head(c, gap)
  {
    assert !IsSpace(']');
    hide IsSpace;
    assert ']' !in gap by { assert forall k :: 0 <= k < |gap| ==> gap[k] != ']'; }
  }

  /** However much whitespace stands behind the comma and the colon, the same citation is read. */
  lemma SpacedIsRead(c: Citation, gap: string, gap': string, more: string)
    requires Printable(c) && AllSpace(gap) && AllSpace(gap')
    ensures MatchPrefix(ENFORCER, Spaced(c, gap, gap') + more) == Some(Match(c, |Spaced(c, gap, gap')|))
  {
    PrintableParts(c);
    var s, r := Spaced(c, gap, gap') + more, |Head(c, gap)| + 1;
    var q := r + 2 + |gap'|;
    ReadSpaced(c, gap, gap', more, s, r, q, q + 1 + |c.quote|);
  }

  lemma ReadSpaced(c: Citation, gap: string, gap': string, more: string, s: string, r: nat, q: nat, e: nat)
    requires Printable(c) && AllSpace(gap) && AllSpace(gap') && s == Spaced(c, gap, gap') + more
    requires r == |Head(c, gap)| + 1 && q == r + 2 + |gap'| && e == q + 1 + |c.quote|
    ensures MatchPrefix(ENFORCER, s) == Some(Match(c, |Spaced(c, gap, gap')|))
  {
    hide *;
    SpacedPlaces(c, gap, gap', more, s, r, q, e);
    SpacedChars(c, gap, gap', more, s, r, q, e);
    ReadPlaces(c, gap, s, Places(r, q, e));
  }

  lemma ReadPlaces(c: Citation, gap: string, s: string, p: Places)
    requires Printable(c) && AllSpace(gap) && Locate(s) == Some(p)
    requires 1 <= p.bracket < p.open < p.close < |s|
    requires s[1..p.bracket] == Head(c, gap) && s[p.open + 1..p.close] == c.quote
    ensures MatchPrefix(ENFORCER, s) == Some(Match(c, p.close + 1))
  {
    PrintableParts(c);
    hide *;
    SpacedSplit(c, gap);
    NotAtStart(c);
    LongMatch(ENFORCER, s, p, Head(c, gap), c.quote);
    PartsRead(c, gap);
  }

  lemma NotAtStart(c: Citation)
    requires Printable(c)
    ensures |c.doc| != 0
  {
  }

  lemma PartsRead(c: Citation, gap: string)
    requires Printable(c) && AllSpace(gap)
    ensures var head := Head(c, gap); Citation(head[..|c.doc|], SectionPart(head[|c.doc| + 1..]), c.quote) == c
  {
    PrintableParts(c);
    hide *;
    SpacedSection(gap, c.section);
    HeadParts(c, gap);
  }

  lemma PrintableParts(c: Citation)
    requires Printable(c)
    ensures c.doc != "" && c.section != "" && (|c.section| == 1 || !IsSpace(c.section[0]))
    ensures |c.quote| >= ENFORCER.minQuote
  {
    hide IsSpace;
  }

  lemma HeadParts(c: Citation, gap: string)
    requires c.doc != ""
    ensures Head(c, gap)[..|c.doc|] == c.doc && Head(c, gap)[|c.doc| + 1..] == gap + c.section && |c.doc| > 0
  {
  }
}
