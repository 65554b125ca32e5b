/** Texts with printed citations between plain text: what a scan of the whole finds. */
module CitedTexts {
  import opened Text
  import opened CitationGrammar
  import opened GrammarAgreement

  /** Text without an opening bracket only moves what is found behind it. */
  lemma {:induction false} PlainPrefix(g: Grammar, a: string, b: string, base: nat)
    requires '[' !in a
    ensures FindAll(g, a + b, base) == FindAll(g, b, base + |a|)
  {
    hide *;
    if a == "" {
      assert a + b == b;
    } else {
      assert a[0] in a;
      NoMatchBefore(g, a, b);
      assert (a + b)[1..] == a[1..] + b;
      UnfoldNoMatch(g, a + b, base);
      PlainPrefix(g, a[1..], b, base + 1);
    }
  }

  lemma UnfoldNoMatch(g: Grammar, s: string, base: nat)
    requires s != "" && MatchPrefix(g, s).None?
    ensures FindAll(g, s, base) == FindAll(g, s[1..], base + 1)
  {
    hide MatchPrefix;
  }

  lemma NoMatchBefore(g: Grammar, a: string, b: string)
    requires a != "" && a[0] != '['
    ensures MatchPrefix(g, a + b).None?
  {
    hide Locate, SplitPoint, SectionPart;
    assert (a + b)[0] == a[0];
  }

  lemma NothingInPlain(g: Grammar, a: string, base: nat)
    requires '[' !in a
    ensures FindAll(g, a, base) == []
  {
    hide FindAll;
    PlainPrefix(g, a, "", base);
    assert a + "" == a;
    FindInNothing(g, base + |a|);
  }

  /** Printed citations, each behind its piece of text, and the text behind the last one. */
  function Woven(gaps: seq<string>, cs: seq<Citation>): string
    requires |gaps| == |cs| + 1
  {
    if cs == [] then gaps[0] else gaps[0] + Print(cs[0]) + Woven(gaps[1..], cs[1..])
  }

  predicate Plain(gaps: seq<string>) {
    forall i :: 0 <= i < |gaps| ==> '[' !in gaps[i]
  }

  lemma CitesCons(f: Found, rest: seq<Found>)
    ensures Cites([f] + rest) == [f.cite] + Cites(rest)
  {
  }

  lemma UnfoldMatch(g: Grammar, s: string, base: nat)
    requires s != "" && MatchPrefix(g, s).Some?
    ensures var m := MatchPrefix(g, s).value;
      FindAll(g, s, base) == [Found(base, base + m.length, m.cite)] + FindAll(g, s[m.length..], base + m.length)
  {
    hide MatchPrefix;
  }

  /** Whatever follows it, the printed citation is read as itself. */
  ghost predicate ReadAs(g: Grammar, c: Citation) {
    forall more :: MatchPrefix(g, Print(c) + more) == Some(Match(c, |Print(c)|))
  }

  lemma PrintableIsRead(c: Citation)
    requires Printable(c)
    ensures ReadAs(ENFORCER, c)
  {
    hide MatchPrefix, Printable;
    forall more ensures MatchPrefix(ENFORCER, Print(c) + more) == Some(Match(c, |Print(c)|)) {
      PrintParse(c, more);
    }
  }

  lemma PrintableIsReadInReports(c: Citation)
    requires Printable(c) && OneLine(c)
    ensures ReadAs(REPORT, c)
  {
    hide MatchPrefix, Printable, OneLine;
    forall more ensures MatchPrefix(REPORT, Print(c) + more) == Some(Match(c, |Print(c)|)) {
      PrintParse(c, more);
      EnforcerReads(Print(c) + more);
    }
  }

  lemma PrintedThenMore(g: Grammar, c: Citation, more: string, base: nat)
    requires ReadAs(g, c)
    ensures FindAll(g, Print(c) + more, base)
         == [Found(base, base + |Print(c)|, c)] + FindAll(g, more, base + |Print(c)|)
  {
    hide MatchPrefix, FindAll;
    assert MatchPrefix(g, Print(c) + more) == Some(Match(c, |Print(c)|));
    UnfoldMatch(g, Print(c) + more, base);
    assert (Print(c) + more)[|Print(c)|..] == more;
  }

  /** The scan finds exactly the citations printed into plain text, in order. */
  lemma {:induction false} WovenIsRead(g: Grammar, gaps: seq<string>, cs: seq<Citation>, base: nat)
    requires |gaps| == |cs| + 1 && Plain(gaps) && forall c :: c in cs ==> ReadAs(g, c)
    ensures Cites(FindAll(g, Woven(gaps, cs), base)) == cs
    decreases |cs|
  {
    hide Print, ReadAs, FindAll;
    if cs == [] {
      NothingInPlain(g, gaps[0], base);
    } else {
      var more := Woven(gaps[1..], cs[1..]);
      var next := base + |gaps[0]| + |Print(cs[0])|;
      UnfoldWoven(g, gaps, cs, base);
      WovenIsRead(g, gaps[1..], cs[1..], next);
      CitesCons(Found(base + |gaps[0]|, next, cs[0]), FindAll(g, more, next));
      assert cs == [cs[0]] + cs[1..];
    }
  }

  // Plain text up to the first citation, the citation, and the rest.
  lemma UnfoldWoven(g: Grammar, gaps: seq<string>, cs: seq<Citation>, base: nat)
    requires |gaps| == |cs| + 1 && cs != [] && Plain(gaps) && ReadAs(g, cs[0])
    ensures var next := base + |gaps[0]| + |Print(cs[0])|;
      FindAll(g, Woven(gaps, cs), base)
        == [Found(base + |gaps[0]|, next, cs[0])] + FindAll(g, Woven(gaps[1..], cs[1..]), next)
  {
    hide Print, ReadAs, FindAll;
    var more := Woven(gaps[1..], cs[1..]);
    assert gaps[0] + Print(cs[0]) + more == gaps[0] + (Print(cs[0]) + more);
    PlainPrefix(g, gaps[0], Print(cs[0]) + more, base);
    PrintedThenMore(g, cs[0], more, base + |gaps[0]|);
  }

  // ---------------------------------------------------------------- no bracket inside a citation

  predicate Unbracketed(c: Citation) {
    '[' !in c.doc && '[' !in c.section && '[' !in c.quote
  }

  lemma OneBracket(c: Citation, k: nat)
    requires Unbracketed(c) && 0 < k < |Print(c)|
    ensures Print(c)[k] != '['
  {
  }

  /** Then every opening bracket of the text starts a citation: none lies inside one. */
  lemma {:induction false} WovenUnnested(gaps: seq<string>, cs: seq<Citation>, base: nat, p: nat)
    requires |gaps| == |cs| + 1 && Plain(gaps) && forall c :: c in cs ==> ReadAs(ENFORCER, c) && Unbracketed(c)
    requires p < |Woven(gaps, cs)| && Woven(gaps, cs)[p] == '['
    ensures NoneStraddles(FindAll(ENFORCER, Woven(gaps, cs), base), base + p)
    decreases |cs|
  {
    hide Print, ReadAs, FindAll, Unbracketed, NoneStraddles;
    if cs != [] {
      var more, cut := Woven(gaps[1..], cs[1..]), |gaps[0]| + |Print(cs[0])|;
      var first := Found(base + |gaps[0]|, base + cut, cs[0]);
      UnfoldWoven(ENFORCER, gaps, cs, base);
      assert forall k :: 0 <= k < |gaps[0]| ==> Woven(gaps, cs)[k] == gaps[0][k];
      if p < cut {
        assert Woven(gaps, cs)[p] == Print(cs[0])[p - |gaps[0]|];
        if p > |gaps[0]| {
          OneBracket(cs[0], p - |gaps[0]|);
        }
        FoundWithin(ENFORCER, more, base + cut, base + p);
      } else {
        assert Woven(gaps, cs)[p] == more[p - cut];
        WovenUnnested(gaps[1..], cs[1..], base + cut, p - cut);
      }
      NoneInFirst(first, FindAll(ENFORCER, more, base + cut), base + p);
    }
  }

  lemma NoneInFirst(f: Found, rest: seq<Found>, cut: int)
    requires (cut <= f.lo || f.hi <= cut) && NoneStraddles(rest, cut)
    ensures NoneStraddles([f] + rest, cut)
  {
  }
}
