# Verification of the research platform's citation path

Every claim the platform publishes must be traceable to a quote in an indexed document. This project models
the algorithms that carry that promise, from cutting filings into chunks to printing footnotes, and proves what
they keep on every input and over every run. `dafny verify dfyconfig.toml` checks the whole of it with Dafny 4.11.

Code that changes state step by step is modelled by classes and loops, each proved against a specification
function; the properties are lemmas about those functions.

| modules | models |
|---|---|
| `Text`, `StableSort`, `Numerals` | Python's `strip`, `split`, `join`, `find`, `sorted`, `str(int)` |
| `CitationGrammar`, `GrammarAgreement`, `SpacedCitations`, `CitedTexts` | the two citation grammars as a scanner, prefix stability, the editor's printer |
| `CitationStream`, `CitationStreamProofs`, `CitationStreamLimits` | the hold-back buffer of a streamed completion and its event log |
| `CitedOutputs` | printed citations followed through streams and reports |
| `Splitting`, `SplitLaws`, `Windows`, `Chunker`, `ChunkerWords`, `ChunkerOffsets`, `ChunkerTokens`, `ChunkerBounds` | the hierarchical chunker: where it cuts, losslessness, ranges, token budgets |
| `SparseVectors`, `SparseLaws`, `QuoteLookup` | tokens, sparse vectors and the exact-quote lookup |
| `ChunkLookup` | from the text of a document to the lookup over its chunks |
| `InsertedCitations` | citations inserted from a search result: offered, printed, read again, looked up |
| `RankFusion` | reciprocal rank fusion |
| `TokenBucket`, `EdgarFetch` | the rate limiter and the callers that share it |
| `Footnotes`, `ReportMarkers`, `ReportRendering`, `ReportText`, `BlockLaws`, `TableLaws`, `ReportSections` | footnote numbering and HTML rendering of reports |
| `KpiHistory`, `KpiSeries`, `PeriodLaws`, `ValueSelection` | restatements, period labels and series, overlapping value matches |
| `CitationAttempts`, `Enforcer`, `CoverageVerdicts`, `SentenceVerdicts` | the enforcer's coverage arithmetic, its six checks and its verdict, said of the text |

## Where the code and its words differ

The model follows the code. Each item is proved, with the exact condition where there is one.

- A flush is said never to split a citation across two events (`packages/agents/src/agents/shared/base_agent.py:158`).
  It does when the last `[` in the buffer lies inside a citation, for instance in its quote:
  `CitationStreamProofs.BracketedQuoteIsCut`. And a buffer of 2000 characters goes out whole.
  `CitationStreamLimits.AnyTextAgreement` says exactly which texts are safe under every splitting;
  `CitationStreamLimits.UncappedAgreement` does so for splittings below the cap, of texts in which no unfinished
  bracket waits for 1900 characters.
- A citation inserted from a search result is said to pass the exact-quote check (`apps/api/routers/search.py:7-9`). The
  quote offered is the first 400 characters of a chunk, printed without escaping, so it is read only up to its first
  quote mark, and may end inside a token. `InsertedCitations.InsertedPassesIff` says exactly when it passes,
  `InsertedCitations.StopwordsThenQuoteMark`, `InsertedCitations.RiskFactorsAreCharged` and
  `InsertedCitations.LongTokenIsNotSure` name chunks for which it fails or is not sure to pass.
- The lookup is said to look for the quote verbatim (`packages/agents/src/agents/shared/citation_enforcer.py:13-14`). It
  returns a chunk as soon as one hash bucket is shared, whatever the 0.5 threshold: `QuoteLookup.RetrieveExactQuote`,
  `QuoteLookup.SharedScore`, `QuoteLookup.HitIsNotVerbatim`.
- The chunk budgets of 200 and 2000 tokens bound the sum of the piece estimates. The estimate stored on a chunk of
  several pieces can reach 260 and 2600, and no more: `ChunkerTokens.DefaultChildEstimate`,
  `ChunkerTokens.DefaultParentEstimate`, `ChunkerBounds.DefaultBoundsReached`.
- A parent's recorded range cuts out its content character for character exactly when its paragraphs are two
  characters apart; the words always agree: `ChunkerOffsets.ParentRangeIsTrue`.
- The report's copy of the grammar is called the same as the enforcer's
  (`apps/api/services/report_generator.py:58`); it accepts quotes of one character and no newline in a label.
  `GrammarAgreement.GrammarsAgree` says exactly on which texts both find the same citations;
  `GrammarAgreement.BrokenLabelExample` and `GrammarAgreement.ShortQuoteDiffers` are texts on which they do not.
- The scan for malformed citations takes at most 80 characters for a label
  (`packages/agents/src/agents/shared/citation_enforcer.py:67-70`), the grammar of well-formed ones any number. A
  well-formed citation with a longer label is reported malformed: `CitationAttempts.PrintedFormat`.
- Content that spells out a placeholder, in the decimal digits of any script, is rendered with a footnote nobody
  cited: `ReportMarkers.LiteralIsMarked`, `ReportMarkers.ArabicDigitsAreMarked`, with the exact condition in
  `ReportMarkers.EveryCitationOneMarker`.

## Model

| member | source | states |
|---|---|---|
| CitationGrammar.SplitPointIsLast | packages/agents/src/agents/shared/citation_enforcer.py:60 | The label is split at the last comma that leaves a non-empty document and a non-empty section (and no newline in either, in the report grammar); no later comma qualifies |
| CitationGrammar.MatchStable | packages/agents/src/agents/shared/citation_enforcer.py:59-62 | Once a citation is complete, no text arriving after it can change where it ends or what its three parts are |
| CitationGrammar.MatchLocal | packages/agents/src/agents/shared/citation_enforcer.py:59-62 | A citation needs none of the text after its closing quote mark: cutting the text behind it leaves the same match |
| CitationGrammar.FindAllGenuine | packages/agents/src/agents/shared/citation_enforcer.py:196 | Everything `findall` reports is a real match at the place reported, with the parts reported |
| CitationGrammar.FindAllConcat | packages/agents/src/agents/shared/base_agent.py:177 | Scanning two halves of a text separately finds what one scan of the whole finds if and only if no citation of the whole lies across the cut |
| CitationGrammar.PrintParse | apps/web/components/notes/citation-extension.ts:43 | Round trip: a citation as the notes editor prints it, with any text behind it, is read back by the enforcer as the same three parts if and only if it is printable (non-empty document and section without `]`, no comma in the section before its last character, no leading whitespace in a longer section, a quote of at least 10 characters without `"`); commas in the document are harmless |
| CitationGrammar.FindAllInSequence | packages/agents/src/agents/shared/citation_enforcer.py:196 | What `findall` reports stands in order and without overlap |
| CitationGrammar.InsertedIsReported | apps/web/components/notes/citation-extension.ts:43 | A citation inserted anywhere in a text is reported by `findall`, at its place and with its parts, if and only if it is printable and no citation found in the result begins before it and reaches into it |
| CitationGrammar.InsertedIsRead | apps/web/components/notes/citation-extension.ts:43 | A printed citation with any quote, quote marks included, is read with its own label and the quote up to its first quote mark if and only if that much of it is printable |
| CitationGrammar.QuoteIsRead | packages/agents/src/agents/shared/citation_enforcer.py:60 | For any label without `]`, whatever its commas: no citation is read when fewer than ten characters come before the first quote mark, otherwise exactly those are read as the quote |
| SpacedCitations.SpacedIsRead | packages/agents/src/agents/shared/citation_enforcer.py:60 | A printable citation is read as itself, and to its end, with any whitespace or none behind the comma and behind the colon |
| CitationGrammar.TrimPadded | packages/agents/src/agents/shared/base_agent.py:178 | Trimming takes exactly the whitespace around document, section and quote off, each part staying in its place: of a padded citation it leaves the citation |
| CitedTexts.WovenIsRead | packages/agents/src/agents/shared/citation_enforcer.py:196 | In a text of printed citations with plain text around them, any text without an opening bracket, the scan finds exactly these citations, in order, under either grammar that reads each of them |
| GrammarAgreement.SameReadingIff | apps/api/services/report_generator.py:58-63 | At any place the two grammars read the same if and only if there is no closed quote behind a closed label, or the quote is empty, or no comma splits the label, or the quote has ten characters and the last comma leaves no newline on either side, or it is shorter and every comma leaves one |
| GrammarAgreement.GrammarsAgree | apps/api/services/report_generator.py:58-63 | Exact condition for whole texts: the report finds exactly the citations the enforcer finds, with the same parts, if and only if none the enforcer finds has a newline in its label and none the report finds has a quote under ten characters |
| GrammarAgreement.BrokenLabelDiffers | apps/api/services/report_generator.py:63 | Failing inputs: any printed citation with a newline in its label is read by the enforcer as it is and not so by the report |
| GrammarAgreement.BrokenLabelExample | apps/api/services/report_generator.py:63 | Concrete failure: document "Doc,\nRisk", section "Factors" |
| GrammarAgreement.BrokenLabelInReport | apps/api/services/report_generator.py:63 | There the enforcer reads document "Doc,\nRisk" and section "Factors", the report document "Doc" and section "Risk, Factors" |
| GrammarAgreement.ShortQuoteDiffers | apps/api/services/report_generator.py:63 | Failing inputs: a printed citation with a quote of one to nine characters is footnoted by the report and no citation to the enforcer |
| CitationStream.StreamingCall.FlushChunk | packages/agents/src/agents/shared/base_agent.py:153-186 | One flush sends exactly the text up to the last `[` that is not a complete citation (all of it when forced or past the cap), announces the unseen citations in order and then the chunk, and returns the rest |
| CitationStream.StreamingCall.PublishFresh | packages/agents/src/agents/shared/base_agent.py:176-183 | The loop over a flush announces each citation not seen in the whole stream so far, once, and adds it to the seen set |
| CitationStream.StreamingCall.Receive | packages/agents/src/agents/shared/base_agent.py:135-142 | A delta without content changes nothing; otherwise a buffer of at least 100 characters is flushed |
| CitationStream.StreamingCall.Run | packages/agents/src/agents/shared/base_agent.py:131-145 | The event log of a whole stream, final forced flush included, is the specified log for its deltas |
| CitationStreamProofs.ChunksConserve | packages/agents/src/agents/shared/base_agent.py:131-145 | For every delta sequence the chunk contents concatenate to the deltas concatenated: nothing lost, repeated or reordered |
| CitationStreamProofs.HeldBackOnlyWhileWaiting | packages/agents/src/agents/shared/base_agent.py:140-142 | After every delta of every stream the text held back is under 100 characters, or it is one `[` that is not a complete citation, alone and under 2000 characters |
| CitationStreamProofs.AnnouncedOnce | packages/agents/src/agents/shared/base_agent.py:178-183 | Over a whole stream `citation_found` is emitted exactly once per distinct trimmed citation, in order of first appearance |
| CitationStreamProofs.AnnouncedBeforeCarried | packages/agents/src/agents/shared/base_agent.py:177-185 | Any citation a chunk event carries has been announced before that event |
| CitationStreamProofs.ChunkedScan | packages/agents/src/agents/shared/base_agent.py:177 | For any chunking at all, extracting chunk by chunk gives the citations of the whole text at the same places if and only if no chunk boundary lies inside one |
| CitationStreamProofs.NestedEndsLater | packages/agents/src/agents/shared/citation_enforcer.py:59-62 | A citation that starts inside another cannot be complete before the outer one is |
| CitationStreamProofs.FlushCutsNoMatch | packages/agents/src/agents/shared/base_agent.py:164-170 | A flush that is not forced never ends inside a citation it did not begin inside, provided the last `[` held, if inside a citation, is complete |
| CitationStreamProofs.StreamAgrees | packages/agents/src/agents/shared/base_agent.py:156-162 | For every splitting into deltas that stays below the 2000 cap, of every text whose nested `[` are complete when they are last, chunked extraction equals whole-text extraction, places included |
| CitationStreamProofs.SingleBracketedAgrees | packages/agents/src/agents/shared/base_agent.py:156-162 | In particular for every text in which no citation contains a second `[` |
| CitationStreamProofs.SplitLosesCitation | packages/agents/src/agents/shared/base_agent.py:164-170 | If the condition fails after some 100 to 1999 characters, delivering exactly those in one delta makes the chunks disagree with the text: the docstring's promise is broken |
| CitationStreamProofs.BracketedQuoteIsCut | packages/agents/src/agents/shared/base_agent.py:158-161 | A complete citation with a `[` inside its quote, after 100 characters of plain text, is cut in two by a delta that ends at that bracket |
| CitationStreamProofs.RestatedQuoteIsCut | packages/agents/src/agents/shared/base_agent.py:158-161 | A concrete stream below the cap that splits a citation: a quote with "[restated]" in it |
| CitationStreamProofs.ShortTextAgreement | packages/agents/src/agents/shared/base_agent.py:156-170 | Exact condition: a text shorter than the cap keeps all its citations under every splitting into deltas if and only if whenever the last `[` of a prefix of at least 100 characters lies inside a citation, a complete citation starts at it |
| CitationStreamProofs.StreamedCitations | packages/agents/src/agents/shared/base_agent.py:176-185 | Where the scans agree, the `citations` of all chunk events concatenated are the trimmed `findall` of the whole completion |
| CitationStreamProofs.EventsCarryChunks | packages/agents/src/agents/shared/base_agent.py:183-185 | Announcements carry no content: the chunk events alone hold the chunk contents and their citations, in order |
| CitationStreamProofs.PublishedStream | packages/agents/src/agents/shared/base_agent.py:120-186 | Main result on the published log: contents concatenate to the completion, announcements are the first occurrences of the carried citations, and below the cap with complete nested `[` the carried citations are those of the whole text |
| CitedOutputs.WovenIsPublished | packages/agents/src/agents/shared/base_agent.py:120-186 | End to end on the text: of printed citations with plain text around them, streamed in any way that cuts none, the events carry exactly these, document, section and quote as printed, and announce each once |
| CitedOutputs.ShortWovenIsPublished | packages/agents/src/agents/shared/base_agent.py:120-186 | For every splitting of such a text under 2000 characters, its citations without a second bracket, no further condition is needed |
| CitedOutputs.PrintedIsPublished | packages/agents/src/agents/shared/base_agent.py:176-185 | The stream of one printed citation in one delta announces and carries that citation, part by part |
| CitationStreamLimits.Advance | packages/agents/src/agents/shared/base_agent.py:140-142 | A stream that stands at a place of the text moves, by a delta of at least a threshold and below the cap, to where the flush rule says |
| CitationStreamLimits.StandBefore | packages/agents/src/agents/shared/base_agent.py:141-142 | Some uncapped stream stands 100 to 1999 characters before any given place past the first hundred, when no bracket waits for 1900 characters |
| CitationStreamLimits.UncappedStreamCuts | packages/agents/src/agents/shared/base_agent.py:164-170 | If the last bracket before any place of a text of any length lies inside a citation and is incomplete there, a stream that never reaches the cap loses a citation |
| CitationStreamLimits.AnyTextAgreement | packages/agents/src/agents/shared/base_agent.py:156-170 | Exact condition for every text and every splitting: all citations survive every splitting into deltas if and only if, at each of the first 100 to 1999 characters, a last bracket inside a citation is complete there, and no place from 2000 on lies inside a citation |
| CitationStreamLimits.UncappedAgreement | packages/agents/src/agents/shared/base_agent.py:156-170 | Companion for splittings that stay below the cap, of texts in which no lone incomplete bracket waits for 1900 characters: all citations survive those if and only if nested brackets are complete when they are last |
| Splitting.SpansTile | packages/rag/src/rag/ingestion/chunkers/hierarchical.py:25-26 | Cutting at the regex separators tiles the text: the pieces stand in order with only whitespace between them, at least two characters for paragraphs and one for sentences |
| Splitting.PieceSpans | packages/rag/src/rag/ingestion/chunkers/hierarchical.py:150 | The non-blank pieces still tile the text, and every piece kept has a visible character |
| Splitting.TilesKeepWords | packages/rag/src/rag/ingestion/chunkers/hierarchical.py:150 | Pieces that tile a text hold exactly its words, in order: no word is lost, split or merged |
| SplitLaws.SplitExact | packages/rag/src/rag/ingestion/chunkers/hierarchical.py:25-26 | Said of the characters: a sentence ends where whitespace stands right behind a full stop or a newline (for the enforcer a full stop, an exclamation or a question mark) and the next starts behind all of it; a paragraph ends at a newline, whitespace and the last newline before anything visible |
| SplitLaws.SplitUnique | packages/rag/src/rag/ingestion/chunkers/hierarchical.py:25-26 | That description leaves one way to cut a text |
| SplitLaws.SentenceHasNoBreak | packages/rag/src/rag/ingestion/chunkers/hierarchical.py:26 | No whitespace inside a sentence stands right behind a character that ends one |
| SplitLaws.ParagraphHasNoBreak | packages/rag/src/rag/ingestion/chunkers/hierarchical.py:25 | No paragraph holds two newlines with nothing visible between them |
| SplitLaws.PieceSpansExact | packages/rag/src/rag/ingestion/chunkers/hierarchical.py:150 | The pieces the chunker works on are exactly the visible pieces of that one split |
| SplitLaws.SentencesSplit | packages/rag/src/rag/ingestion/chunkers/hierarchical.py:26 | Round trip: complete sentences with whitespace between them are split into just these sentences |
| SplitLaws.ParagraphsSplit | packages/rag/src/rag/ingestion/chunkers/hierarchical.py:25 | Round trip: paragraphs with blank lines between them are split into just these paragraphs |
| SplitLaws.ParagraphSentences | packages/rag/src/rag/ingestion/chunkers/hierarchical.py:165-196 | From parent to children: the paragraphs a parent joins by blank lines are its sentences, one each, whether a full stop or only the newline ends them |
| Splitting.LocateOffsets | packages/rag/src/rag/ingestion/chunkers/hierarchical.py:302-312 | The loop returns the ranges of a forward-only search from the end of the piece before, with its fallback to the cursor |
| Splitting.OffsetsExact | packages/rag/src/rag/ingestion/chunkers/hierarchical.py:305-311 | For pieces separated by whitespace the `find` never fails and never matches too early: every range is the true place of its piece |
| Windows.WindowEndExact | packages/rag/src/rag/ingestion/chunkers/hierarchical.py:209-213 | A window from a given start may end at a piece (fit the budget, or be one piece) if and only if that end is not past the greedy one |
| Windows.NextStartExact | packages/rag/src/rag/ingestion/chunkers/hierarchical.py:235-240 | The step back takes the shortest suffix worth the overlap budget, never the first piece of the window |
| Windows.LaterEndsNoEarlier | packages/rag/src/rag/ingestion/chunkers/hierarchical.py:206-213 | A window that starts later never ends earlier |
| Windows.WindowsProgress | packages/rag/src/rag/ingestion/chunkers/hierarchical.py:203-240 | Over a whole run starts strictly increase, ends never decrease, no piece is skipped, the last window ends at n, each overlap is the shortest sufficient suffix, and there are at most n windows |
| Windows.WindowsGreedy | packages/rag/src/rag/ingestion/chunkers/hierarchical.py:209-213 | Every window of a run is the longest that fits its budget |
| Windows.FreshPartsAreAll | packages/rag/src/rag/ingestion/chunkers/hierarchical.py:203-240 | Dropping from each window what it shares with the one before leaves every piece exactly once, in order |
| Windows.GroupsPartition | packages/rag/src/rag/ingestion/chunkers/hierarchical.py:180-189 | The parent groups partition the paragraphs in order |
| Windows.GroupsGreedy | packages/rag/src/rag/ingestion/chunkers/hierarchical.py:182-183 | Every parent group is the longest that fits its budget |
| Chunker.ParentBuilder.Flush | packages/rag/src/rag/ingestion/chunkers/hierarchical.py:161-178 | Closing the open group appends one parent with the group's joined text and range, or nothing when it is empty, and leaves an empty group |
| Chunker.ParentBuilder.Add | packages/rag/src/rag/ingestion/chunkers/hierarchical.py:184-188 | Adding a paragraph extends the open group, its token sum and its range by that paragraph |
| Chunker.SplitIntoParentChunks | packages/rag/src/rag/ingestion/chunkers/hierarchical.py:143-191 | The loop with its shared closure variables builds exactly the parents of the greedy partition |
| Chunker.GrowWindow | packages/rag/src/rag/ingestion/chunkers/hierarchical.py:209-213 | The inner loop stops at the greedy end of the window |
| Chunker.StepBack | packages/rag/src/rag/ingestion/chunkers/hierarchical.py:235-240 | The backward loop finds the start that the shortest sufficient overlap asks for |
| Chunker.NextChild | packages/rag/src/rag/ingestion/chunkers/hierarchical.py:207-240 | One round emits the child of its window and moves to the next start, or to the end |
| Chunker.SplitIntoChildChunks | packages/rag/src/rag/ingestion/chunkers/hierarchical.py:195-242 | The nested loops terminate and build exactly the children of the overlapping windows |
| Chunker.ChunkSection | packages/rag/src/rag/ingestion/chunkers/hierarchical.py:94-110 | A section yields its parents, each followed by its children; a blank section yields none |
| Chunker.ChunkFamilies | packages/rag/src/rag/ingestion/chunkers/hierarchical.py:108-110 | Each parent comes with its own children |
| Chunker.ChunkDocument | packages/rag/src/rag/ingestion/chunkers/hierarchical.py:91-123 | The document loop chunks every section at the offset of all text before it, two characters between sections |
| ChunkerWords.ParentsKeepWords | packages/rag/src/rag/ingestion/chunkers/hierarchical.py:150-191 | Lossless: the words of a section's parents, concatenated, are the words of the section |
| ChunkerWords.ChildrenKeepWords | packages/rag/src/rag/ingestion/chunkers/hierarchical.py:196-242 | Lossless: the children of a parent, each without the sentences it shares with its predecessor, hold exactly the parent's words |
| ChunkerWords.SectionFromChildren | packages/rag/src/rag/ingestion/chunkers/hierarchical.py:94-110 | The word sequence of a section is recovered from its child chunks once each child is cut by the words of the sentences it shares with the child before it |
| ChunkerOffsets.RunWords | packages/rag/src/rag/ingestion/chunkers/hierarchical.py:215-217 | The slice from the start of one piece to the end of a later one holds exactly the words of the pieces between |
| ChunkerOffsets.JoinLength | packages/rag/src/rag/ingestion/chunkers/hierarchical.py:165 | Rejoined pieces are never longer than the slice they come from, and equally long if and only if every gap has the separator's length |
| ChunkerOffsets.EvenRunIsJoin | packages/rag/src/rag/ingestion/chunkers/hierarchical.py:165 | With gaps of exactly two characters the slice is the rejoined text, character for character |
| ChunkerOffsets.ParentRangeIsTrue | packages/rag/src/rag/ingestion/chunkers/hierarchical.py:165-175 | A parent's recorded range is the true range of its paragraphs and holds exactly its words; slice and content are equal if and only if its paragraphs are exactly two characters apart |
| ChunkerOffsets.ParentsApart | packages/rag/src/rag/ingestion/chunkers/hierarchical.py:172-173 | Parent ranges of a section are disjoint and increasing, at least two characters apart |
| ChunkerOffsets.ChildRangeIsTrue | packages/rag/src/rag/ingestion/chunkers/hierarchical.py:215-217 | Every child range lies inside its parent's range, and the slice of the parent's content it names holds exactly the child's words |
| ChunkerOffsets.DocumentRanges | packages/rag/src/rag/ingestion/chunkers/hierarchical.py:92-123 | For every document each recorded parent range is a true place in the joined text holding the parent's words, with all its children nested in it |
| ChunkerOffsets.DocumentParentsApart | packages/rag/src/rag/ingestion/chunkers/hierarchical.py:92-123 | Parent ranges are disjoint and increasing across the whole document, section boundaries included |
| ChunkerOffsets.DocumentChildRanges | packages/rag/src/rag/ingestion/chunkers/hierarchical.py:215-217 | In every document, when a parent's range is as long as its content, the slice of the document that a child's range names holds exactly the child's words |
| ChunkerTokens.RejoinedEstimate | packages/rag/src/rag/ingestion/chunkers/hierarchical.py:314-316 | The estimate of rejoined pieces lies between the sum of the piece estimates and that sum plus one less than the number of pieces |
| ChunkerTokens.GreedyEstimate | packages/rag/src/rag/ingestion/chunkers/hierarchical.py:206-213 | A chunk of several pieces has piece estimates within budget and its own estimate at most 13/10 of the budget (260 for children, 2600 for parents by default) |
| ChunkerTokens.OneWordPieces | packages/rag/src/rag/ingestion/chunkers/hierarchical.py:314-316 | That bound is attained: one-word pieces that fill a budget give an estimate of exactly 13/10 of it, rounded down |
| ChunkerTokens.ParentsWithinBudget | packages/rag/src/rag/ingestion/chunkers/hierarchical.py:180-189 | Every parent of every section is within these bounds, only a single oversized paragraph may exceed them, and no parent was closed while the next paragraph still fitted |
| ChunkerTokens.ChildrenWithinBudget | packages/rag/src/rag/ingestion/chunkers/hierarchical.py:206-213 | The same for every child of every parent |
| ChunkerTokens.DefaultParentEstimate | packages/rag/src/rag/ingestion/chunkers/hierarchical.py:59-65 | With the default budgets a parent of several paragraphs is estimated at most 2600 tokens |
| ChunkerTokens.DefaultChildEstimate | packages/rag/src/rag/ingestion/chunkers/hierarchical.py:59-65 | With the default budgets a child of several sentences is estimated at most 260 tokens |
| ChunkerBounds.ParentReachesBound | packages/rag/src/rag/ingestion/chunkers/hierarchical.py:143-191 | A section of as many one-word paragraphs as the budget has tokens becomes one parent, estimated at exactly 13/10 of the budget |
| ChunkerBounds.ChildReachesBound | packages/rag/src/rag/ingestion/chunkers/hierarchical.py:195-242 | A parent of as many one-word sentences as the budget has tokens becomes one child, estimated at exactly 13/10 of the budget |
| ChunkerBounds.DefaultBoundsReached | packages/rag/src/rag/ingestion/chunkers/hierarchical.py:59-65 | With the default budgets the splitter makes a parent of 2600 and a child of 260 estimated tokens |
| ChunkerTokens.ChildrenProgress | packages/rag/src/rag/ingestion/chunkers/hierarchical.py:203-240 | For every parent with a sentence the child windows start at the first, make progress to the last, and number at most the sentences |
| ChunkerTokens.DefaultOverlap | packages/rag/src/rag/ingestion/chunkers/hierarchical.py:235-240 | With the defaults each child starts with the shortest run of sentences at the end of the one before that is worth 20 tokens, short of its first sentence |
| SparseVectors.RunsConcat | packages/rag/src/rag/ingestion/pipeline.py:27 | Tokenising two parts separately gives the tokens of the whole if and only if the cut does not go through a token |
| SparseVectors.QuoteKeepsTokens | packages/rag/src/rag/ingestion/pipeline.py:45-46 | A quote cut out of a text at token boundaries keeps all its tokens, in a row, after lower-casing and stopword removal |
| SparseVectors.TwoTokensKeepOne | packages/rag/src/rag/ingestion/pipeline.py:45-46 | However a text goes on after a cut, even inside its last token, a cut-off text with two tokens keeps its first one |
| SparseVectors.KeepsTokenIff | packages/rag/src/rag/ingestion/pipeline.py:45-46 | A text shares a token with any continuation of it if and only if a token survives its end: one before the last, or the last if it is not cut, or its stub if that is a token behind the token it was cut from |
| SparseVectors.TermWeightAtLeastOne | packages/rag/src/rag/ingestion/pipeline.py:126-128 | In a corpus of one every term weight lies in [1, 2.5) |
| SparseVectors.ComputeBm25Sparse | packages/rag/src/rag/ingestion/pipeline.py:109-135 | The accumulated vector has a bucket exactly for the hash of each token, holds in each the sum of the weights of the distinct tokens that collide there, and every weight is at least 1; what a weight is, `TokenWeightIs` says |
| SparseLaws.TokensExact | packages/rag/src/rag/ingestion/pipeline.py:45-46 | The tokens of a text are exactly the maximal runs of letters and digits of the lowered text that are no stopwords |
| SparseLaws.SeparatorSplits | packages/rag/src/rag/ingestion/pipeline.py:27 | A character that is no letter or digit, and not one of two signs that lower-case to one, stands between tokens: the tokens are those before it and those behind it |
| SparseLaws.NumberIsToken | packages/rag/src/rag/ingestion/pipeline.py:27 | A number is a token |
| SparseLaws.CapitalsAreLowered | packages/rag/src/rag/ingestion/pipeline.py:46 | A word in letters of any case is the token of its small letters, unless that is a stopword |
| SparseLaws.UnicodeCapitals | packages/rag/src/rag/ingestion/pipeline.py:46 | Concrete texts in which lower-casing makes a token character of a sign outside ASCII |
| SparseLaws.CountIsMultiplicity | packages/rag/src/rag/ingestion/pipeline.py:122 | The frequency of a token is its multiplicity among the tokens of the text |
| SparseLaws.TokenWeightIs | packages/rag/src/rag/ingestion/pipeline.py:126-128 | A token that stands f times in a text weighs f * 2.5 / (f + 1.5), whatever the length of the text |
| SparseLaws.WeightGrows | packages/rag/src/rag/ingestion/pipeline.py:126-128 | Of two tokens, in any texts, the one that stands more often weighs more, and equal weights mean equal frequencies |
| SparseLaws.BucketOfToken | packages/rag/src/rag/ingestion/pipeline.py:133-134 | A token alone in its bucket of the 30000 gives it exactly that weight |
| SparseLaws.RepeatedWord | packages/rag/src/rag/ingestion/pipeline.py:109-135 | On the text: one word f times over has a vector with one bucket, of weight f * 2.5 / (f + 1.5) |
| QuoteLookup.FilterScopes | packages/rag/src/rag/retrieval/hybrid_retriever.py:197-207 | Whatever extra conditions are given, a payload passes only if it belongs to the tenant and the coverage and is searchable, and exactly then when it meets the extra conditions too |
| QuoteLookup.SharedBuckets | packages/rag/src/rag/ingestion/pipeline.py:133-134 | The vectors of two texts share a bucket if and only if some token of one hashes to the bucket of some token of the other |
| QuoteLookup.SharedScore | packages/rag/src/rag/retrieval/hybrid_retriever.py:129-130 | One shared bucket is worth a score of at least 1, so the 0.5 threshold never rejects a result |
| QuoteLookup.BucketAddsProduct | packages/rag/src/rag/retrieval/hybrid_retriever.py:119-124 | A score is the sum over the buckets of a quote of the products of the two weights: the empty vector scores 0 and each further bucket adds its product |
| QuoteLookup.SearchSparse | packages/rag/src/rag/retrieval/hybrid_retriever.py:119-124 | The search contract the lookup relies on: a best-scoring point among those that pass the filter and share a bucket, or none when there is none |
| QuoteLookup.RetrieveExactQuote | packages/rag/src/rag/retrieval/hybrid_retriever.py:107-140 | A missing tenant or coverage is an error; otherwise a chunk is returned if and only if some searchable chunk in scope has a token in a bucket of the quote's, and it is such a chunk, with a score that no vector in scope exceeds |
| QuoteLookup.CommonTokenIsFound | packages/rag/src/rag/retrieval/hybrid_retriever.py:107-140 | No false alarm: a quote with one whole token of an in-scope searchable chunk is found under every hash |
| QuoteLookup.FoundIffShared | packages/rag/src/rag/retrieval/hybrid_retriever.py:107-140 | Exactly which quotes are found apart from hash collisions: those found under every hash are those with a token in common with a searchable chunk in scope |
| QuoteLookup.SurelyFoundIff | packages/rag/src/rag/retrieval/hybrid_retriever.py:107-140 | For any quote and any chunk in scope: the chunk makes the lookup succeed, whatever the hash and whatever else is indexed, if and only if they have a token in common |
| QuoteLookup.VerbatimQuote | packages/rag/src/rag/retrieval/hybrid_retriever.py:107-140 | Where a quote is cut out of a chunk at token boundaries it is sure to be found if and only if it has a token that is not a stopword |
| QuoteLookup.SlicedShares | apps/api/routers/search.py:26-29 | For a text sliced from the visible start of a chunk, anywhere: it shares a token with the chunk if and only if one survives the cut |
| InsertedCitations.LookedUpIsSlice | apps/api/routers/search.py:54 | What is looked up for an inserted citation (the chunk stripped, cut at 400 characters, read up to the first quote mark, stripped again) is a slice of the chunk with only whitespace before it |
| InsertedCitations.InsertedPassesIff | apps/api/routers/search.py:7-9 | Exact condition for the promise, through printing and reading: the citation inserted for a chunk is read in any text and its quote sure to be found if and only if what is read of it is printable and a token survives where it ends, at a quote mark or at the 400 character limit |
| InsertedCitations.InsertedParts | apps/api/routers/search.py:54 | A readable inserted citation names the document and the section of its chunk, and quotes at most 400 characters of the stripped content, up to their first quote mark |
| InsertedCitations.InsertedCharge | packages/agents/src/agents/shared/citation_enforcer.py:200-223 | For a text that starts with a printed citation: the quote check can never charge it if and only if what is read of the quote shares a token with an indexed chunk and the rest is never charged; with under ten characters before the first quote mark, if and only if what is read further on is not |
| InsertedCitations.NoTokenIsCharged | packages/agents/src/agents/shared/citation_enforcer.py:200-223 | An inserted citation of which no token is read is charged as a hallucination, whatever is indexed |
| InsertedCitations.StopwordsThenQuoteMark | apps/api/routers/search.py:7-9 | Failing inputs: every chunk that opens with at least ten characters of stopwords and then a quote mark is offered, and its citation is charged |
| InsertedCitations.RiskFactorsAreCharged | apps/api/routers/search.py:7-9 | Concrete failure: a chunk that begins with: In this and other, and then a phrase in quote marks |
| InsertedCitations.LongTokenIsNotSure | apps/api/routers/search.py:7-9 | Failing inputs: a chunk that is one token of more than 400 characters is offered as a citation it is not sure to answer for |
| QuoteLookup.VerbatimCore | apps/api/routers/search.py:26-29 | A verbatim text cut through words at both ends shares a token with its source when a part of it with a token is whole there |
| QuoteLookup.HitIsNotVerbatim | packages/rag/src/rag/retrieval/hybrid_retriever.py:110 | A returned chunk need not contain the quote: a one-token chunk answers for a longer text |
| ChunkLookup.TokensOfWords | packages/rag/src/rag/ingestion/pipeline.py:45-46 | Tokenising a text is tokenising its words one by one |
| ChunkLookup.ChildTokensInSection | packages/rag/src/rag/ingestion/chunkers/hierarchical.py:94-110 | A child chunk has no token that its section has not |
| ChunkLookup.SectionTokensInChildren | packages/rag/src/rag/ingestion/chunkers/hierarchical.py:94-110 | Every token of a section is a token of one of its child chunks |
| ChunkLookup.DocumentSharesIff | packages/rag/src/rag/ingestion/chunkers/hierarchical.py:91-123 | A text has a token in common with a section of a document if and only if it has one in common with a child chunk of the document |
| ChunkLookup.DocumentQuoteFound | packages/rag/src/rag/retrieval/hybrid_retriever.py:107-140 | End to end, for any text: an indexed document is sure to answer for it, whatever the hash and whatever else is indexed, if and only if it has a token in common with a section of the document |
| ChunkLookup.SectionSliceIsFound | packages/rag/src/rag/retrieval/hybrid_retriever.py:107-140 | Where a text is cut out of a section at token boundaries, the indexed document is sure to answer for it if and only if it has a token |
| ChunkLookup.DocumentQuoteExact | packages/rag/src/rag/retrieval/hybrid_retriever.py:107-140 | With nothing else indexed, the quotes found under every hash are exactly those with a token of the document |
| StableSort.OrderIsStable | packages/rag/src/rag/retrieval/hybrid_retriever.py:224 | `sorted` takes every position once, in order of the key, and keeps the input order of ties |
| RankFusion.AddList | packages/rag/src/rag/retrieval/hybrid_retriever.py:219-222 | One pass adds the reciprocal ranks of a list to the scores, enumerates new ids in first-seen order and keeps the first payload of an id |
| RankFusion.ReciprocalRankFusion | packages/rag/src/rag/retrieval/hybrid_retriever.py:209-233 | The result enumerates the union of both lists without duplicates, each id with the sum of its reciprocal ranks and its first payload, by falling score with ties in first-seen order |
| RankFusion.SortRanks | packages/rag/src/rag/retrieval/hybrid_retriever.py:224 | The reverse sort is a duplicate-free enumeration of the ids by falling score, ties as first seen |
| RankFusion.ScoreExact | packages/rag/src/rag/retrieval/hybrid_retriever.py:213-221 | A fused score is 1 / (k + rank) for each list the id is in, ranks counting from 1 |
| RankFusion.BothScoreAboveOne | packages/rag/src/rag/retrieval/hybrid_retriever.py:213-221 | For duplicate-free lists of at most k + 1 results, an id found by both searches scores above any id found by only one |
| RankFusion.BothMayLoseAtKPlusTwo | packages/rag/src/rag/retrieval/hybrid_retriever.py:213-221 | The bound k + 1 is sharp: with k + 2 results an id found last by both ties with the first of one list, and loses the tie |
| RankFusion.LeadInBothScoresAbove | packages/rag/src/rag/retrieval/hybrid_retriever.py:213-221 | An id ahead of another in both lists scores above it |
| RankFusion.HigherScoreFirst | packages/rag/src/rag/retrieval/hybrid_retriever.py:224-233 | A higher fused score means an earlier place in the output |
| RankFusion.FoundByBothComesFirst | packages/rag/src/rag/retrieval/hybrid_retriever.py:209-233 | In the output everything both searches found stands before everything only one found, for lists of at most k + 1 |
| RankFusion.DefaultFusionOrder | packages/rag/src/rag/retrieval/hybrid_retriever.py:68 | With the retriever's constant everything both searches found stands first, for up to 61 results a search (by default 20) |
| RankFusion.DefaultMayLose | packages/rag/src/rag/retrieval/hybrid_retriever.py:213-221 | With the retriever's constant and 62 results an id last in both searches ties with the first of one and loses |
| TokenBucket.Bucket.Pass | packages/rag/src/rag/connectors/sec_edgar.py:79-87 | One pass under the lock: refilled for the time elapsed, capped at one, granted exactly when a whole token is there, otherwise told how long to wait |
| TokenBucket.Bucket.Acquire | packages/rag/src/rag/connectors/sec_edgar.py:77-88 | A caller repeats passes until the first one granted; the bucket moves as by those passes and the only grant is the last |
| TokenBucket.ClosedForm | packages/rag/src/rag/connectors/sec_edgar.py:80-86 | After any run of passes the tokens are the rate times the time since the last grant, however many passes failed in between |
| TokenBucket.GrantedIff | packages/rag/src/rag/connectors/sec_edgar.py:83-84 | A pass sees min(1, rate * time since the last grant) and is granted if and only if a full interval has gone by since |
| TokenBucket.GrantsAreSpaced | packages/rag/src/rag/connectors/sec_edgar.py:64-69 | For any interleaving of callers at non-decreasing times the j-th grant after another comes at least j intervals later |
| TokenBucket.WindowBound | packages/rag/src/rag/connectors/sec_edgar.py:64-69 | Any window of length t in any run holds at most 1 + rate * t grants |
| TokenBucket.WaitIsExact | packages/rag/src/rag/connectors/sec_edgar.py:87-88 | While nobody else is granted, the next pass of a refused caller succeeds if and only if it comes no sooner than the computed wait, whoever else tried and failed meanwhile |
| EdgarFetch.Fetch | packages/rag/src/rag/connectors/sec_edgar.py:264-288 | The first answer that is not a transport error, 429 or 503 decides, with content for codes 200 to 299 and an error for others; after three retryable answers the last is reported |
| EdgarFetch.FetchResultUnique | packages/rag/src/rag/connectors/sec_edgar.py:268-288 | The specification of a fetch leaves no choice: one number of requests and one outcome fit the answers |
| EdgarFetch.StepAccounted | packages/rag/src/rag/connectors/sec_edgar.py:268-271 | Every step of every caller keeps the books: grants are requests plus unused grants, requests are those the callers sent, nobody exceeds three |
| EdgarFetch.RequestsHaveGrants | packages/rag/src/rag/connectors/sec_edgar.py:268-271 | In every interleaved run each request has used up a grant of its own and no fetch sends more than three |
| EdgarFetch.RunIsBucketRun | packages/rag/src/rag/connectors/sec_edgar.py:269 | The fleet of callers drives the bucket exactly as its sequence of passes does |
| EdgarFetch.RequestRate | packages/rag/src/rag/connectors/sec_edgar.py:264-288 | Whatever the interleaving of passes, answers and retries, the requests sent are at most 1 + rate * (time from first to last grant) |
| EdgarFetch.RequestsSince | packages/rag/src/rag/connectors/sec_edgar.py:264-288 | From any moment of any run to any later one the requests sent are at most the grants given meanwhile plus those held unused at that moment, and those grants are at most 1 + rate * their span |
| EdgarFetch.CallersFollow | packages/rag/src/rag/connectors/sec_edgar.py:264-288 | In every interleaved run each caller's fetch ends with the requests and the outcome that a fetch alone has on the answers that caller got |
| Numerals.DecimalValue | apps/api/services/report_generator.py:113 | A number printed into a placeholder reads back as itself |
| Numerals.DecimalInjective | apps/api/services/report_generator.py:113 | Two numbers printed alike are the same |
| Numerals.DecimalLength | packages/rag/src/rag/ingestion/parsers/financial_normalizer.py:304 | How many digits a year is printed with |
| Footnotes.FootnoteTable.FootnoteNumber | apps/api/services/report_generator.py:101-107 | A citation equal after trimming to one already numbered gets its number, any other the next one |
| Footnotes.FootnoteTable.CitationsToPlaceholders | apps/api/services/report_generator.py:110-115 | The substitution numbers the content's citations in order and replaces exactly them by their placeholders, all other characters kept |
| Footnotes.FirstOccurrenceNumbers | apps/api/services/report_generator.py:104-107 | After any number of sections the numbers are exactly 1..n in order of first occurrence, a bijection with the distinct trimmed citations |
| Footnotes.NumbersStay | apps/api/services/report_generator.py:207-214 | A number once given never changes as later sections and notes are processed |
| Footnotes.MarkerNamesCitation | apps/api/services/report_generator.py:118-121 | A printed footnote number names exactly one citation of the report |
| Footnotes.KeysAreFound | apps/api/services/report_generator.py:115 | The citations replaced are those a scan of the content finds, trimmed |
| ReportMarkers.PlaceholderLocal | apps/api/services/report_generator.py:69 | A character that cannot stand in a placeholder is never inside one: text from it on does not change what is read before it |
| ReportMarkers.ScanAround | apps/api/services/report_generator.py:119-121 | Cutting a text at any such character cuts no placeholder: the marks are those of the two parts |
| ReportMarkers.ReadIffLiteral | apps/api/services/report_generator.py:118-121 | Where no citation stands, a placeholder is read after substitution if and only if the content has a literal `@@CITE`, decimal digits of any script and what becomes `@@` there |
| ReportMarkers.EveryCitationOneMarker | apps/api/services/report_generator.py:110-121 | After substitution and reading back, each citation is exactly one marker with its own number and all other text is untouched, if and only if no such literal stands outside the citations |
| ReportMarkers.LiteralIsMarked | apps/api/services/report_generator.py:118-121 | Failing inputs: content that is a literal placeholder, in decimal digits of any script, has no citation and is rendered as a footnote marker |
| ReportMarkers.ArabicDigitsAreMarked | apps/api/services/report_generator.py:69 | Concrete failure: an Arabic-Indic digit in the literal is read as a footnote number too |
| ReportMarkers.NoOpeningIsClean | apps/api/services/report_generator.py:65-69 | Content that never spells `@@CITE` meets the condition |
| ReportMarkers.IntendedMarks | apps/api/services/report_generator.py:110-121 | The intended markers carry the numbers of the content's citations, in order |
| ReportMarkers.CitationsRestored | apps/api/services/report_generator.py:207-214 | Round trip: putting the entries of the printed citation list back for the numbers restores the content, up to whitespace inside its citations |
| ReportRendering.RenderBodyHtml | apps/api/services/report_generator.py:144-158 | The loop renders each block as table or paragraph, joined by newlines; which of them, `BodyReadsBack` says |
| ReportRendering.ScanSubstitute | apps/api/services/report_generator.py:156 | Escaping and line breaks neither hide, add nor reorder a placeholder |
| ReportRendering.ScanCells | apps/api/services/report_generator.py:126 | Stripping a table line and cutting it into stripped cells keeps its placeholders in order |
| ReportRendering.ScanSeparator | apps/api/services/report_generator.py:128 | A separator row, which is dropped, never holds a placeholder |
| ReportRendering.TableMarks | apps/api/services/report_generator.py:124-141 | A rendered table shows the numbers of its lines, one each and in order |
| ReportRendering.BlockMarks | apps/api/services/report_generator.py:151-157 | A rendered block, table or paragraph, shows the numbers of its text |
| ReportRendering.RenderingKeepsMarks | apps/api/services/report_generator.py:144-158 | For every text the markers of the rendered body are those of the text itself: none lost, repeated or reordered by blocks, lines, cells, dropped rows or escaping |
| ReportRendering.SectionMarks | apps/api/services/report_generator.py:110-158 | From content to HTML: the footnote numbers are those of the content's citations, one each and in order, when no literal placeholder stands in it |
| ReportText.FlatMarkers | apps/api/services/report_generator.py:118-121 | Turning placeholders into markers conserves the text: writing them back gives exactly what was scanned |
| ReportText.CellReadsBack | apps/api/services/report_generator.py:133-134 | A table cell as rendered, entities decoded and placeholders written back, is the cell |
| ReportText.ParagraphReadsBack | apps/api/services/report_generator.py:156-157 | The text of a paragraph as rendered reads back as the block, line breaks included |
| ReportText.CellHasNoMarkup | apps/api/services/report_generator.py:133-134 | Whatever the cell contains, its raw text holds no angle bracket and no quote mark |
| ReportText.TableReadsBack | apps/api/services/report_generator.py:124-141 | A rendered table reads back as a list of rows, one for each line that is no separator and in order, each with the cells of its line |
| BlockLaws.LinesExact | apps/api/services/report_generator.py:152 | The lines looked at are exactly the maximal stretches without a line break that have something visible |
| BlockLaws.LineBreakExact | apps/api/services/report_generator.py:152 | The line breaks are the whitespace characters that are no blanks |
| BlockLaws.TableLineExact | apps/api/services/report_generator.py:153 | A line is a table line if and only if its first and last visible characters are two different pipes |
| BlockLaws.BlockReadsBack | apps/api/services/report_generator.py:151-157 | Exactly the blocks that have a visible line, and whose visible lines all stand between two pipes, become tables, which read back as their rows and hold no paragraph; every other block reads back as itself in one paragraph without a table node |
| BlockLaws.BodyReadsBack | apps/api/services/report_generator.py:144-158 | For every content the body has one part for each paragraph of the stripped content, in order, each a table or a paragraph by that condition, reading back so |
| BlockLaws.ParagraphsReadBack | apps/api/services/report_generator.py:144-158 | On the text: paragraphs with blank lines between them are shown each in its place |
| TableLaws.CellsPrinted | apps/api/services/report_generator.py:125-127 | Round trip: a printed table row is read cell by cell as it was printed |
| TableLaws.RulerPrinted | apps/api/services/report_generator.py:128 | A printed row is dropped as a separator if and only if each cell is two dashes or more, with a colon at either end or not |
| TableLaws.PrintedTableReadsBack | apps/api/services/report_generator.py:124-158 | Round trip: a printed table is rendered as a table, and its HTML read back gives its rows in order, without those of dashes |
| TableLaws.HeadIsFirstRow | apps/api/services/report_generator.py:136-137 | The header cells of a rendered table are those of the first row kept, and no others |
| ReportSections.BuildSections | apps/api/services/report_generator.py:250-264 | One section for each output that exists, in report order, with its title, rendered from its content with the numbers of the finished table, which are those of all sections' citations |
| ReportSections.FullReport | apps/api/services/report_generator.py:250-264 | A report of all four outputs has four sections with these titles in this order |
| ReportSections.RenderNotesHtml | apps/api/services/report_generator.py:161-168 | Notes are numbered in the same table and their markers substituted without escaping |
| ReportSections.SectionsLater | apps/api/services/report_generator.py:207-209 | HTML already rendered stays right while later sections and the notes extend the table |
| ReportSections.CitationList | apps/api/services/report_generator.py:211-214 | The citation list sorted by number is the distinct citations of the report in order of first occurrence |
| CitedOutputs.WovenKeys | apps/api/services/report_generator.py:104-115 | On the text: the numbered citations of a section with printed one-line citations in plain text are exactly these, as printed |
| CitedOutputs.WovenList | apps/api/services/report_generator.py:211-214 | And the citation list names each of them once, in the order they were first printed |
| ReportSections.FinishedSection | apps/api/services/report_generator.py:207-214 | In the finished report a section's markers are its citations, in order, with the numbers of the final table |
| KpiHistory.KpiTable.FindLatest | packages/agents/src/agents/kpi_tracker/tools.py:126-135 | The query finds a row of the key with the latest time, or nothing if and only if there is none |
| KpiHistory.KpiTable.UpsertOne | packages/agents/src/agents/kpi_tracker/tools.py:125-160 | One item adds a first row, a restatement noting the current and the new value, or nothing when they differ by less than the tolerance |
| KpiHistory.KpiTable.Upsert | packages/agents/src/agents/kpi_tracker/tools.py:120-163 | A batch only appends, counts what it appends, and every appended row is a first value or a restatement of the latest one; for distinct keys the whole new table is determined |
| KpiHistory.NextItem | packages/agents/src/agents/kpi_tracker/tools.py:125-160 | A batch of distinct keys never looks at rows it wrote itself |
| KpiHistory.RunHistory | packages/agents/src/agents/kpi_tracker/tools.py:137-158 | Over every run of batches with distinct keys and increasing times: the first row of a key is not restated, every other one is, names its predecessor's value, is later, and differs by at least the tolerance |
| KpiHistory.HistoryIsChronological | packages/agents/src/agents/kpi_tracker/tools.py:133 | Rows of one key stand in order of time, so the latest row is the last |
| KpiHistory.LastAfter | packages/agents/src/agents/kpi_tracker/tools.py:137 | After a batch every key in it has its value within the tolerance |
| KpiHistory.ReplayChangesNothing | packages/agents/src/agents/kpi_tracker/tools.py:123 | Idempotence: replaying a batch right after itself changes nothing |
| KpiHistory.RunGrows | packages/agents/src/agents/kpi_tracker/tools.py:120-163 | No batch of a run changes or removes a row of an earlier one |
| KpiHistory.BatchIsApplied | packages/agents/src/agents/kpi_tracker/tools.py:120-163 | In every run, after each batch every key in it has its value within the tolerance |
| KpiSeries.QuarterRoundTrip | packages/rag/src/rag/ingestion/parsers/financial_normalizer.py:253-258 | A printed quarter label normalises to its own type, year and quarter if and only if the year is 100 to 9999 |
| KpiSeries.AnnualRoundTrip | packages/rag/src/rag/ingestion/parsers/financial_normalizer.py:288-290 | A printed annual label normalises to itself if and only if the year is 100 to 9999 |
| PeriodLaws.YearExact | packages/rag/src/rag/ingestion/parsers/financial_normalizer.py:60 | Where a year is read: two to four digits behind whitespace, or whitespace with one apostrophe in it, that end a word |
| PeriodLaws.QuarterExact | packages/rag/src/rag/ingestion/parsers/financial_normalizer.py:60 | The quarter and year read are those of the first place where a Q of either case starts a word and a digit from 1 to 4 and a year follow |
| PeriodLaws.FiscalExact | packages/rag/src/rag/ingestion/parsers/financial_normalizer.py:73 | The fiscal year read is that of the first place where FY, in either case, starts a word and a year follows |
| PeriodLaws.PeriodExact | packages/rag/src/rag/ingestion/parsers/financial_normalizer.py:253-300 | Which reading wins: a quarter label, then the first group of prose patterns, then a fiscal year label, then the other prose patterns, else none |
| PeriodLaws.ShortYear | packages/rag/src/rag/ingestion/parsers/financial_normalizer.py:311-314 | Two year digits behind an apostrophe are read as a year of this century |
| KpiSeries.KeyOfLabel | apps/api/routers/coverages.py:259-264 | The dashboard's sort key recovers year and quarter (0 for annual) of a printed label if and only if the year has four digits or is 0 |
| PeriodLaws.KeyQuarterExact | apps/api/routers/coverages.py:251-264 | For any text the quarter of the sort key is the digit behind the first Q that has one, 0 without any |
| PeriodLaws.KeyYearExact | apps/api/routers/coverages.py:250-264 | And its year is the number of the first four digits in a row, 0 without any |
| KpiSeries.DataPointsWithYoy | apps/api/routers/coverages.py:267-296 | Each point's change is computed against the nearest earlier point of its own period type, and is absent without one or when that value is 0 |
| KpiSeries.ChangeExact | apps/api/routers/coverages.py:276-280 | A change is told unless the earlier value is 0; times the size of the earlier value it is a hundred times the difference, and it has the sign of the difference |
| KpiSeries.SeriesIsChronological | apps/api/routers/coverages.py:269 | The series takes each row once, in order of the key, rows of one period as they came |
| KpiSeries.PrintedSeriesOrder | apps/api/routers/coverages.py:259-264 | For printed labels of four-digit years that order is calendar order, annual figures before the quarters of their year |
| ValueSelection.CandidatesInOrder | packages/rag/src/rag/ingestion/parsers/financial_normalizer.py:238 | The sort puts earlier matches first, and of those starting together the longest |
| ValueSelection.SelectMatches | packages/rag/src/rag/ingestion/parsers/financial_normalizer.py:233-245 | The kept matches are disjoint and in order, and every rejected one overlaps a kept one that starts before it, or with it and is at least as long |
| ValueSelection.OnlyTheLastMatters | packages/rag/src/rag/ingestion/parsers/financial_normalizer.py:242 | Checking a match against everything kept comes to checking it against the last one kept |
| ValueSelection.SelectionUnique | packages/rag/src/rag/ingestion/parsers/financial_normalizer.py:240-245 | That specification leaves no choice: any two selections of the same matches are equal |
| Enforcer.CoverageThreshold | packages/agents/src/agents/shared/citation_enforcer.py:163-168 | Coverage lies in [0, 1], is 1 exactly when nothing is uncited, and reaches 95% if and only if at most one claim in twenty is uncited |
| Enforcer.UncitedDigitsAreClaims | packages/agents/src/agents/shared/citation_enforcer.py:158-162 | Paragraphs with digits are among the claim paragraphs, so the uncited ones are no more than the uncited claims |
| Enforcer.ApprovalBoundsFigures | packages/agents/src/agents/shared/citation_enforcer.py:321-325 | An approved output has at most a twentieth of its claims as uncited figures, and reports coverage exactly 1 when it has fewer than twenty claims |
| Enforcer.HasVerbExact | packages/agents/src/agents/shared/citation_enforcer.py:161 | A paragraph makes a claim by a verb if and only if one of the seven stands in it with no word character on either side |
| CoverageVerdicts.BlankSplitIs | packages/agents/src/agents/shared/citation_enforcer.py:157 | The pieces between blank lines are the only ones that give the text when joined by two newlines and do not reach past the first two |
| CoverageVerdicts.ParagraphsExact | packages/agents/src/agents/shared/citation_enforcer.py:157 | The paragraphs of any text are its pieces between blank lines, stripped, without the blank ones |
| CoverageVerdicts.ParagraphsOfBlocks | packages/agents/src/agents/shared/citation_enforcer.py:157 | Round trip: paragraphs with blank lines between them are what the coverage check looks at |
| CoverageVerdicts.CoverageOfText | packages/agents/src/agents/shared/citation_enforcer.py:155-168 | On the text: it passes the coverage check if and only if at most one in twenty of its paragraphs with a digit or one of the verbs is without a citation |
| CoverageVerdicts.UncitedClaimsFail | packages/agents/src/agents/shared/citation_enforcer.py:109-152 | An output with more uncited claims than that is never approved |
| CoverageVerdicts.ReportedCoverage | packages/agents/src/agents/shared/citation_enforcer.py:321-325 | The reported coverage is the share of cited paragraphs among those with a digit, and 1 when there are none |
| Enforcer.CheckQuotesExistInRag | packages/agents/src/agents/shared/citation_enforcer.py:193-233 | The loop reports the first five quotes neither search finds and the first five only the semantic one does, and passes when there are none of the former |
| Enforcer.NothingMissing | packages/agents/src/agents/shared/citation_enforcer.py:200-223 | The check passes if and only if each quote is found by one of the two searches |
| Enforcer.QuotesAccounted | packages/agents/src/agents/shared/citation_enforcer.py:200-223 | Every quote not found word for word is reported once, as missing or as a paraphrase, by what the semantic search answers |
| Enforcer.VerbatimOutputPasses | packages/agents/src/agents/shared/citation_enforcer.py:200-223 | From chunk text to verdict: an output can never be charged with a hallucination, under any hash and any answers of the semantic search, if and only if each quote has a token in common with a searchable chunk of the coverage |
| CitationAttempts.FormatAtStart | packages/agents/src/agents/shared/citation_enforcer.py:64-70 | A text that starts with a well-formed citation, its label without brackets and line breaks, has only well-formed attempts if and only if that label has at most 80 characters and the rest of the text has only such |
| CitationAttempts.PrintedFormat | packages/agents/src/agents/shared/citation_enforcer.py:181-191 | A text that starts with a printed citation, its label without brackets and line breaks, passes the format check if and only if document and section together have at most 78 characters and the rest of the text passes |
| CitationAttempts.BareQuote | packages/agents/src/agents/shared/citation_enforcer.py:64-70 | A quote behind a label without brackets, the only quote of a text, is charged as malformed if and only if it has five characters or more |
| CitationAttempts.LabelAfterBreak | packages/agents/src/agents/shared/citation_enforcer.py:67-70 | The label of an attempt goes back to the last line break before it and no further |
| Enforcer.CheckQuoteFormat | packages/agents/src/agents/shared/citation_enforcer.py:181-191 | Passes if and only if every attempt the scan finds is a complete citation; otherwise it reports up to five attempts that are none |
| Enforcer.CheckNoUnsourcedNumbers | packages/agents/src/agents/shared/citation_enforcer.py:270-287 | Passes if and only if every sentence with a number has a citation in it or in the next sentence, and shows the first five numbers without one |
| SentenceVerdicts.TwoSentences | packages/agents/src/agents/shared/citation_enforcer.py:271 | Two sentences that end in a full stop, an exclamation or a question mark are the first two the checks look at, whatever follows |
| SentenceVerdicts.UnsourcedNumberFails | packages/agents/src/agents/shared/citation_enforcer.py:270-287 | On the text: a number in the first sentence fails the check, and with it the whole output, when neither that sentence nor the next holds a citation and none reaches across, whatever stands behind |
| SentenceVerdicts.TwoSentencesSourced | packages/agents/src/agents/shared/citation_enforcer.py:270-287 | Of two sentences, the first without a bracket, a citation in the second sources the numbers of both, and nothing else does |
| SentenceVerdicts.NumbersOfText | packages/agents/src/agents/shared/citation_enforcer.py:270-287 | A text of sentences passes the number check if and only if each sentence with a number has a citation in it and the next one taken together |
| SentenceVerdicts.SpeculationOfText | packages/agents/src/agents/shared/citation_enforcer.py:289-303 | It passes the check on speculation if and only if each speculative sentence holds a citation |
| SentenceVerdicts.InferenceOfText | packages/agents/src/agents/shared/citation_enforcer.py:305-319 | It passes the check on inference if and only if each inferring sentence, lowered, says "(inferred from" |
| SentenceVerdicts.NumberReports | packages/agents/src/agents/shared/citation_enforcer.py:280 | A report on a number quotes the number and up to 80 characters of its sentence |
| SentenceVerdicts.ShortenedReports | packages/agents/src/agents/shared/citation_enforcer.py:295 | The sentences the other two checks report are cut at 100 characters |
| Enforcer.FirstReports | packages/agents/src/agents/shared/citation_enforcer.py:286 | Reports are cut at five, those of the last two checks at three |
| Enforcer.Violations | packages/agents/src/agents/shared/citation_enforcer.py:290-295 | The loop of both sentence checks reports the violating sentences, each cut at 100 characters, in order |
| Enforcer.CheckNoFutureSpeculation | packages/agents/src/agents/shared/citation_enforcer.py:289-303 | Passes if and only if every speculative sentence has a citation |
| Enforcer.CheckInferenceLabeling | packages/agents/src/agents/shared/citation_enforcer.py:305-319 | Passes if and only if every inferring sentence is labelled |
| Enforcer.Validate | packages/agents/src/agents/shared/citation_enforcer.py:109-152 | Approved if and only if the six checks pass, each stated on the content; otherwise partial from 80% reported coverage; the reported hallucinations are the true number, at most five |

## Left out

- KpiHistory.KpiTable.Upsert: when a batch names one key twice, equal `extracted_at` leave the latest row open, so only the relation to some latest row is stated there, not the whole table.
- CitationStreamProofs.StreamAgrees: is about streams in which no delta fills the buffer to 2000 characters; `AnyTextAgreement` has no such condition.
- CitationStreamLimits.UncappedAgreement: leaves out texts of 2000 characters and more in which a lone incomplete `[` stands for 1900 characters; `AnyTextAgreement` covers them for splittings of every size.
- Chunker.ChunkDocument: the table chunks, which follow the chunks of their section, and the metadata other than offsets and estimates are not in the result.
- ChunkerOffsets.ChildRangeIsTrue: positions are those in the parent's rejoined content; `DocumentChildRanges` says when they are positions in the document, and for the children of other parents only that they lie inside the parent's range.
- CitationAttempts.FormatAtStart: labels with a bracket or a line break in them are left to `CheckQuoteFormat`, which is stated for every text by the scan itself.
- InsertedCitations.InsertedPassesIff: a note is the text the editor inserts; the HTML it stores, in which `&` and `<` are escaped, is not modelled.
- QuoteLookup.VerbatimCore: a sufficient condition only; `SurelyFoundIff` is the exact one for any text.
- Enforcer.Validate: what the patterns for numbers, speculation and inference find is a parameter, as is the lower-casing of a sentence; the messages, the retry prompt and the audit log are not modelled.
- KpiSeries.QuarterRoundTrip: the prose patterns for periods ("third quarter", "three months ended", "fiscal year") are parameters of which only this is used, that each spells out a word of three letters.
- TokenBucket.Bucket.Acquire: the lock and the sleeps are not modelled; passes happen one at a time at clock readings that are given, and the rate is positive.
- EdgarFetch.Fetch: the back-off sleep between attempts is not modelled; answers and transport errors are given.
- Floating point: weights, scores, tokens and coverages are reals, and `int(n * 1.3)` is 13n/10 rounded down, which the double computation gives for every realistic word count.
- `crc32` is an arbitrary function, and Unicode's `isdigit` and `\w` in the coverage check are parameters; `\d` and `\w` in period labels are ASCII (in placeholders `\d` is every decimal digit of Unicode 15.0), and `lower()` is modelled where it can yield a token character.
- Qdrant: a sparse search is a best-scoring point in scope; approximate search, dense search, the semantic fallback (a parameter), hydration of parents and the reranker are not modelled.
- Chunk ids, page numbers, the other metadata and the table chunks; `stream_chunk_builder` and the token accounting of a streamed call.
- HTML is a list of raw text and markers; the markup inside a marker, the Jinja template, the KPI tables of the report and the PDF are not modelled. `\r\n` counts as two line breaks, of which the empty line is dropped.
- The scan patterns for values are arbitrary non-empty matches; `normalize_value` and its units are not modelled.
- A KPI row's unit, citation and period type pass through unchanged and are omitted; `compute_yoy_change` is not modelled.
- Which outputs a report takes (latest approved version) and the database behind it: the outputs are given.
- The notification inbox, the LangGraph retry loop, role checks, cost aggregation and CIK lookup would only add easy members.
