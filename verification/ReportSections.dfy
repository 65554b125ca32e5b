/** The whole report: sections in their fixed order, then the notes, one footnote table for all. */
module ReportSections {
  import opened Text
  import opened CitationGrammar
  import opened Footnotes
  import opened ReportMarkers
  import opened ReportRendering

  datatype OutputType = IndustryPrimer | LynchPitch | MungerInvert | QuarterlyUpdate

  const SECTION_ORDER: seq<OutputType> := [IndustryPrimer, LynchPitch, MungerInvert, QuarterlyUpdate]

  datatype Section = Section(title: string, html: seq<Node>)

  function Title(kind: OutputType): string {
    match kind
    case IndustryPrimer => "Industry Primer"
    case LynchPitch => "Bull Case (Lynch Pitch)"
    case MungerInvert => "Bear Case (Munger Invert)"
    case QuarterlyUpdate => "Latest Quarterly Update"
  }

  /** The sections that exist, in report order. */
  function Present(outputs: map<OutputType, string>, order: seq<OutputType>): (kinds: seq<OutputType>)
    ensures forall k :: k in kinds ==> k in outputs
  {
    if order == [] then []
    else (if order[0] in outputs then [order[0]] else []) + Present(outputs, order[1..])
  }

  /** Their contents. */
  function Contents(outputs: map<OutputType, string>, kinds: seq<OutputType>): (contents: seq<string>)
    requires forall k :: k in kinds ==> k in outputs
    ensures |contents| == |kinds|
  {
    seq(|kinds|, i requires 0 <= i < |kinds| => assert kinds[i] in kinds; outputs[kinds[i]])
  }

  /** The sections carry the titles of these kinds, in order. */
  predicate Titled(kinds: seq<OutputType>, sections: seq<Section>) {
    |sections| == |kinds| && forall i :: 0 <= i < |kinds| ==> sections[i].title == Title(kinds[i])
  }

  /** Their citations, one section after the other. */
  function ReportKeys(contents: seq<string>): seq<Citation> {
    if contents == [] then []
    else ReportKeys(contents[..|contents| - 1]) + Keys(Lex(contents[|contents| - 1]))
  }

  ghost predicate RenderedFrom(contents: seq<string>, m: Numbers, sections: seq<Section>) {
    && |sections| == |contents|
    && forall i :: 0 <= i < |contents| ==> SectionFrom(contents[i], m, sections[i].html)
  }

  ghost predicate SectionFrom(content: string, m: Numbers, html: seq<Node>) {
    Numbered(content, m) && html == BlocksHtml(Blocks(Strip(Rendered(content, m))))
  }

  lemma SectionLater(content: string, m: Numbers, m': Numbers, html: seq<Node>)
    requires SectionFrom(content, m, html) && forall c :: c in m ==> c in m' && m'[c] == m[c]
    ensures SectionFrom(content, m', html)
  {
    hide Lex, AllNumbered, Substituted, BlocksHtml, Blocks, Strip;
    SubstitutedLater(Lex(content), m, m');
  }

  lemma SectionsLater(contents: seq<string>, m: Numbers, keys: seq<Citation>, sections: seq<Section>)
    requires RenderedFrom(contents, m, sections)
    ensures RenderedFrom(contents, NoteAll(m, keys), sections)
  {
    hide SectionFrom, NoteAll;
    NumbersStay(m, keys);
    forall i | 0 <= i < |contents| ensures SectionFrom(contents[i], NoteAll(m, keys), sections[i].html) {
      SectionLater(contents[i], m, NoteAll(m, keys), sections[i].html);
    }
  }

  lemma ReportKeysSnoc(contents: seq<string>, content: string)
    ensures ReportKeys(contents + [content]) == ReportKeys(contents) + Keys(Lex(content))
  {
    hide Keys, Lex;
    assert (contents + [content])[..|contents|] == contents;
  }

  lemma AddSection(done: seq<string>, m: Numbers, sections: seq<Section>, content: string, section: Section)
    requires RenderedFrom(done, m, sections) && m == NoteAll(map[], ReportKeys(done))
    requires SectionFrom(content, NoteAll(m, Keys(Lex(content))), section.html)
    ensures RenderedFrom(done + [content], NoteAll(m, Keys(Lex(content))), sections + [section])
    ensures NoteAll(m, Keys(Lex(content))) == NoteAll(map[], ReportKeys(done + [content]))
  {
    hide SectionFrom, NoteAll, Keys, Lex;
    SectionsLater(done, m, Keys(Lex(content)), sections);
    ReportKeysSnoc(done, content);
    NoteAllConcat(map[], ReportKeys(done), Keys(Lex(content)));
  }

  // The body of one section.
  method BuildSection(kind: OutputType, content: string, table: FootnoteTable) returns (section: Section)
    modifies table
    ensures table.numbers == NoteAll(old(table.numbers), Keys(Lex(content)))
    ensures section.title == Title(kind) && SectionFrom(content, table.numbers, section.html)
  {
    hide Lex, Keys, NoteAll, AllNumbered, Substituted, BlocksHtml, Blocks, Strip;
    var withPlaceholders := table.CitationsToPlaceholders(content);
    var html := RenderBodyHtml(withPlaceholders);
    section := Section(Title(kind), html);
  }

  /** The sections of these kinds are built, with the numbers of the table as it is. */
  ghost predicate Built(outputs: map<OutputType, string>, kinds: seq<OutputType>, m: Numbers, sections: seq<Section>)
    requires forall k :: k in kinds ==> k in outputs
  {
    && Titled(kinds, sections)
    && RenderedFrom(Contents(outputs, kinds), m, sections)
    && m == NoteAll(map[], ReportKeys(Contents(outputs, kinds)))
  }

  lemma BuiltNext(outputs: map<OutputType, string>, done: seq<OutputType>, kind: OutputType, m: Numbers,
                  sections: seq<Section>, section: Section)
    requires (forall k :: k in done ==> k in outputs) && kind in outputs && Built(outputs, done, m, sections)
    requires var m' := NoteAll(m, Keys(Lex(outputs[kind])));
      section.title == Title(kind) && SectionFrom(outputs[kind], m', section.html)
    ensures Built(outputs, done + [kind], NoteAll(m, Keys(Lex(outputs[kind]))), sections + [section])
  {
    hide RenderedFrom, NoteAll, ReportKeys, Contents, Keys, Lex, SectionFrom, Title;
    AddSection(Contents(outputs, done), m, sections, outputs[kind], section);
    ContentsSnoc(outputs, done, kind);
  }

  /** Every section is rendered with the numbers the finished table gives, whatever was added after it. */
  method BuildSections(outputs: map<OutputType, string>, table: FootnoteTable) returns (sections: seq<Section>)
    requires table.numbers == map[]
    modifies table
    ensures Built(outputs, Present(outputs, SECTION_ORDER), table.numbers, sections)
  {
    hide Built, NoteAll, Keys, Lex, Present, SectionFrom;
    sections := [];
    ghost var done: seq<OutputType> := [];
    NothingBuilt(outputs);
    assert SECTION_ORDER[0..] == SECTION_ORDER
        && [] + Present(outputs, SECTION_ORDER) == Present(outputs, SECTION_ORDER);
    for i := 0 to |SECTION_ORDER|
      invariant Present(outputs, SECTION_ORDER) == done + Present(outputs, SECTION_ORDER[i..])
      invariant (forall k :: k in done ==> k in outputs) && Built(outputs, done, table.numbers, sections)
    {
      var kind := SECTION_ORDER[i];
      UnfoldPresent(outputs, i);
      if kind in outputs {
        ghost var before := table.numbers;
        var section := BuildSection(kind, outputs[kind], table);
        BuiltNext(outputs, done, kind, before, sections, section);
        done, sections := done + [kind], sections + [section];
      }
    }
    NonePresent(outputs);
    assert done + [] == done;
  }

  lemma ContentsSnoc(outputs: map<OutputType, string>, done: seq<OutputType>, kind: OutputType)
    requires (forall k :: k in done ==> k in outputs) && kind in outputs
    ensures Contents(outputs, done + [kind]) == Contents(outputs, done) + [outputs[kind]]
  {
  }

  lemma UnfoldPresent(outputs: map<OutputType, string>, i: nat)
    requires i < |SECTION_ORDER|
    ensures Present(outputs, SECTION_ORDER[i..])
      == (if SECTION_ORDER[i] in outputs then [SECTION_ORDER[i]] else []) + Present(outputs, SECTION_ORDER[i + 1..])
  {
    assert SECTION_ORDER[i..][1..] == SECTION_ORDER[i + 1..];
  }

  lemma NonePresent(outputs: map<OutputType, string>)
    ensures Present(outputs, SECTION_ORDER[|SECTION_ORDER|..]) == []
  {
  }

  lemma NothingBuilt(outputs: map<OutputType, string>)
    ensures Built(outputs, [], map[], [])
  {
  }

  /** `_render_notes_html`: already HTML, so no blocks and no escaping. */
  method RenderNotesHtml(notes: string, table: FootnoteTable) returns (html: seq<Node>)
    modifies table
    ensures table.numbers == NoteAll(old(table.numbers), Keys(Lex(notes)))
    ensures Numbered(notes, table.numbers) && html == ToMarkers(Rendered(notes, table.numbers))
  {
    hide Lex, Keys, NoteAll, AllNumbered, Substituted, ToMarkers;
    var withPlaceholders := table.CitationsToPlaceholders(notes);
    html := ToMarkers(withPlaceholders);
  }

  // ---------------------------------------------------------------- the finished report

  // `sorted(footnotes.items(), key=number)`
  ghost predicate SortedListing(m: Numbers, list: seq<Citation>) {
    && |list| == |m|
    && (forall i :: 0 <= i < |list| ==> list[i] in m)
    && forall i, j :: 0 <= i < j < |list| ==> m[list[i]] < m[list[j]]
  }

  lemma {:induction false} ListedFrom(m: Numbers, order: seq<Citation>, list: seq<Citation>, i: nat)
    requires NumbersFollow(m, order) && SortedListing(m, list) && i < |list|
    ensures m[list[i]] >= i + 1
  {
    if i > 0 {
      ListedFrom(m, order, list, i - 1);
    } else {
      var k :| 0 <= k < |order| && order[k] == list[0];
    }
  }

  lemma {:induction false} ListedUpTo(m: Numbers, order: seq<Citation>, list: seq<Citation>, i: nat)
    requires NumbersFollow(m, order) && SortedListing(m, list) && i < |list|
    ensures m[list[i]] <= i + 1
    decreases |list| - i
  {
    if i + 1 < |list| {
      ListedUpTo(m, order, list, i + 1);
    } else {
      var k :| 0 <= k < |order| && order[k] == list[i];
    }
  }

  /** The printed citation list is the first occurrences of all citations of the report, in order. */
  lemma CitationList(keys: seq<Citation>, list: seq<Citation>)
    requires SortedListing(NoteAll(map[], keys), list)
    ensures list == FirstOccurrences(keys)
  {
    hide NoteAll, FirstOccurrences;
    var m, order := NoteAll(map[], keys), FirstOccurrences(keys);
    FirstOccurrenceNumbers(keys);
    forall i | 0 <= i < |list| ensures list[i] == order[i] {
      ListedFrom(m, order, list, i);
      ListedUpTo(m, order, list, i);
      var k :| 0 <= k < |order| && order[k] == list[i];
    }
  }

  /**
   * In a section without literal placeholders the markers are its citations, one each, in order, with the
   * report's numbers.
   */
  lemma FinishedSection(content: string, m: Numbers, html: seq<Node>)
    requires SectionFrom(content, m, html) && Clean(content)
    ensures forall c :: c in Keys(Lex(content)) ==> c in m
    ensures Marks(html) == NumbersOf(Keys(Lex(content)), m)
  {
    hide Marks, Keys, Lex, Clean, Numbered, Rendered, BlocksHtml, Blocks, Strip;
    SectionMarks(content, m);
  }

  /** A report of all four outputs has these sections. */
  lemma FullReport(outputs: map<OutputType, string>, sections: seq<Section>)
    requires IndustryPrimer in outputs && LynchPitch in outputs && MungerInvert in outputs && QuarterlyUpdate in outputs
    requires Titled(Present(outputs, SECTION_ORDER), sections)
    ensures |sections| == 4
    ensures sections[0].title == "Industry Primer" && sections[1].title == "Bull Case (Lynch Pitch)"
    ensures sections[2].title == "Bear Case (Munger Invert)" && sections[3].title == "Latest Quarterly Update"
  {
    AllPresent(outputs, SECTION_ORDER);
  }

  lemma {:induction false} AllPresent(outputs: map<OutputType, string>, order: seq<OutputType>)
    requires forall k :: k in order ==> k in outputs
    ensures Present(outputs, order) == order
  {
    if order != [] {
      AllPresent(outputs, order[1..]);
      assert order == [order[0]] + order[1..];
    }
  }
}
