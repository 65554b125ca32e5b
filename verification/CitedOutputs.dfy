/** Citations printed into plain text, from the completion to the events of its stream and the list of a report. */
module CitedOutputs {
  import opened Text
  import opened CitationGrammar
  import opened GrammarAgreement
  import opened CitedTexts
  import opened CitationStream
  import opened CitationStreamProofs
  import Footnotes
  import ReportSections

  // Printed as the enforcer reads it, with no part that starts or ends in whitespace.
  predicate Neat(c: Citation) {
    Printable(c) && Stripped(c)
  }

  predicate AllNeat(cs: seq<Citation>) {
    forall c :: c in cs ==> Neat(c)
  }

  lemma NeatMeans(c: Citation)
    requires Neat(c)
    ensures Printable(c) && Trim(c) == c && ReadAs(ENFORCER, c)
  {
    hide Printable, Stripped, Trim, ReadAs;
    TrimStripped(c);
    PrintableIsRead(c);
  }

  lemma NeatTrims(found: seq<Found>)
    requires AllNeat(Cites(found))
    ensures seq(|found|, i requires 0 <= i < |found| => Trim(found[i].cite)) == Cites(found)
  {
    hide Neat, Trim;
    forall i | 0 <= i < |found| ensures Trim(found[i].cite) == Cites(found)[i] {
      assert Cites(found)[i] in Cites(found);
      NeatMeans(found[i].cite);
    }
  }

  lemma WovenCitations(gaps: seq<string>, cs: seq<Citation>)
    requires |gaps| == |cs| + 1 && Plain(gaps) && AllNeat(cs)
    ensures Citations(Woven(gaps, cs)) == cs
  {
    hide Neat, Trim, FindAll, Woven, ReadAs, Plain;
    var found := FindAll(ENFORCER, Woven(gaps, cs), 0);
    forall c | c in cs ensures ReadAs(ENFORCER, c) {
      NeatMeans(c);
    }
    WovenIsRead(ENFORCER, gaps, cs, 0);
    NeatTrims(found);
  }

  // ---------------------------------------------------------------- the events of a stream

  /** What a stream has to publish of a text with these citations. */
  ghost predicate Publishes(deltas: seq<string>, cs: seq<Citation>) {
    var events := Events(Chunks("", deltas), {});
    && Flatten(Contents(events)) == Flatten(deltas)
    && Carried(events) == cs
    && Announced(events) == FirstOccurrences(cs)
  }

  /** Document, section and quote of every printed citation reach the events as they were printed. */
  lemma WovenIsPublished(deltas: seq<string>, gaps: seq<string>, cs: seq<Citation>)
    requires |gaps| == |cs| + 1 && Plain(gaps) && AllNeat(cs)
    requires Flatten(deltas) == Woven(gaps, cs) && Agrees(deltas)
    ensures Publishes(deltas, cs)
  {
    hide *;
    PublishedStream(deltas);
    EventsCarryChunks(Chunks("", deltas), {});
    StreamedCitations(deltas);
    WovenCitations(gaps, cs);
    PublishesIs(deltas, cs);
  }

  lemma PublishesIs(deltas: seq<string>, cs: seq<Citation>)
    requires var events := Events(Chunks("", deltas), {});
      && Flatten(Contents(events)) == Flatten(deltas) && Carried(events) == cs
      && Announced(events) == FirstOccurrences(Carried(events))
    ensures Publishes(deltas, cs)
  {
    hide Events, Chunks, Contents, Carried, Announced, FirstOccurrences, Flatten;
  }

  lemma WovenSingleBracketed(gaps: seq<string>, cs: seq<Citation>)
    requires |gaps| == |cs| + 1 && Plain(gaps) && AllNeat(cs) && forall c :: c in cs ==> Unbracketed(c)
    ensures SingleBracketed(Woven(gaps, cs))
  {
    hide FindAll, Woven, ReadAs, Plain, Neat, Unbracketed, NoneStraddles;
    forall c | c in cs ensures ReadAs(ENFORCER, c) {
      NeatMeans(c);
    }
    var text := Woven(gaps, cs);
    forall p | 0 <= p < |text| && text[p] == '[' ensures !InsideMatch(text, p) {
      WovenUnnested(gaps, cs, 0, p);
    }
  }

  /** However a text of up to 1999 characters is streamed, its citations are published as they were printed. */
  lemma ShortWovenIsPublished(deltas: seq<string>, gaps: seq<string>, cs: seq<Citation>)
    requires |gaps| == |cs| + 1 && Plain(gaps) && AllNeat(cs) && forall c :: c in cs ==> Unbracketed(c)
    requires Flatten(deltas) == Woven(gaps, cs) && |Woven(gaps, cs)| < 2000
    ensures Publishes(deltas, cs)
  {
    assert FORCE_FLUSH_THRESHOLD == 2000;
    hide *;
    assert "" + Flatten(deltas) == Flatten(deltas);
    ShortNeverCapped("", deltas);
    WovenSingleBracketed(gaps, cs);
    SingleBracketedAgrees(deltas);
    WovenIsPublished(deltas, gaps, cs);
  }

  lemma OneWoven(c: Citation)
    ensures Woven(["", ""], [c]) == Print(c) && Plain(["", ""])
  {
    hide Print;
    assert "" + Print(c) + "" == Print(c);
  }

  /** One citation in one delta: announced once and carried once, part by part. */
  lemma PrintedIsPublished(c: Citation)
    requires Neat(c) && Unbracketed(c) && |Print(c)| < 2000
    ensures Events(Chunks("", [Print(c)]), {}) != []
    ensures Publishes([Print(c)], [c])
    ensures Announced(Events(Chunks("", [Print(c)]), {})) == [c]
  {
    hide *;
    OneWoven(c);
    OneNeat(c);
    FlattenOne(Print(c));
    ShortWovenIsPublished([Print(c)], ["", ""], [c]);
    OnlyOne(c, [Print(c)]);
  }

  lemma FlattenOne(s: string)
    ensures Flatten([s]) == s
  {
  }

  lemma OnlyOne(c: Citation, deltas: seq<string>)
    requires Publishes(deltas, [c])
    ensures Announced(Events(Chunks("", deltas), {})) == [c] && Events(Chunks("", deltas), {}) != []
  {
    OnlyFirst(c);
    hide Events, Chunks, FirstOccurrences;
  }

  lemma OnlyFirst(c: Citation)
    ensures FirstOccurrences([c]) == [c]
  {
    assert [c][..0] == [] && [] + [c] == [c];
  }

  lemma OneNeat(c: Citation)
    requires Neat(c)
    ensures AllNeat([c])
  {
    hide Neat;
  }

  // ---------------------------------------------------------------- the citations of a report

  /** The numbered citations of a section are the printed ones. */
  lemma WovenKeys(gaps: seq<string>, cs: seq<Citation>)
    requires |gaps| == |cs| + 1 && Plain(gaps) && AllNeat(cs) && forall c :: c in cs ==> OneLine(c)
    ensures Footnotes.Keys(Footnotes.Lex(Woven(gaps, cs))) == cs
  {
    hide Neat, Trim, FindAll, Woven, ReadAs, Plain, OneLine, Footnotes.Keys, Footnotes.Lex;
    var found := FindAll(REPORT, Woven(gaps, cs), 0);
    forall c | c in cs ensures ReadAs(REPORT, c) {
      NeatMeans(c);
      PrintableIsReadInReports(c);
    }
    WovenIsRead(REPORT, gaps, cs, 0);
    NeatTrims(found);
    Footnotes.KeysAreFound(Woven(gaps, cs), 0);
  }

  /** And the list of a report of this one section names each of them once, in the order they were first printed. */
  lemma WovenList(gaps: seq<string>, cs: seq<Citation>, list: seq<Citation>)
    requires |gaps| == |cs| + 1 && Plain(gaps) && AllNeat(cs) && forall c :: c in cs ==> OneLine(c)
    requires ReportSections.SortedListing(
      Footnotes.NoteAll(map[], Footnotes.Keys(Footnotes.Lex(Woven(gaps, cs)))), list)
    ensures list == FirstOccurrences(cs)
  {
    hide *;
    WovenKeys(gaps, cs);
    ReportSections.CitationList(cs, list);
  }
}
