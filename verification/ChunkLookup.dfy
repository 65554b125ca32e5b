/** From document text to lookup: what stands in a document is found through the child chunks made of it. */
module ChunkLookup {
  import opened Text
  import opened Splitting
  import opened Windows
  import opened Chunker
  import opened ChunkerWords
  import opened SparseVectors
  import opened QuoteLookup

  // ---------------------------------------------------------------- the tokens of a text are those of its words

  function WordTokens(words: seq<string>): seq<string> {
    if words == [] then [] else Tokenize(words[0]) + WordTokens(words[1..])
  }

  /** Tokenising a text is tokenising its words one by one. */
  lemma {:induction false} TokensOfWords(s: string)
    ensures Tokenize(s) == WordTokens(Words(s))
    decreases |s|
  {
    if s == "" {
      assert Tokenize("") == [] by { LowerSpace(""); }
    } else if IsSpace(s[0]) {
      TokensAfterSpace(s);
      TokensOfWords(s[1..]);
    } else {
      TokensAfterWord(s);
      TokensOfWords(s[SkipWord(s, 0)..]);
    }
  }

  lemma TokensAfterSpace(s: string)
    requires s != "" && IsSpace(s[0])
    ensures Tokenize(s) == Tokenize(s[1..])
  {
    LowerSpace(s[..1]);
    hide Tokenize, IsSpace, Lower, CutsToken;
    assert s == s[..1] + s[1..];
    TokenizeConcat(s[..1], s[1..]);
  }

  lemma TokensAfterWord(s: string)
    requires s != "" && !IsSpace(s[0])
    ensures var k := SkipWord(s, 0);
      k > 0 && Tokenize(s) == Tokenize(s[..k]) + Tokenize(s[k..])
  {
    var k := SkipWord(s, 0);
    assert s == s[..k] + s[k..];
    if k < |s| {
      SpaceIsPlain(s[k]);
      assert Lower(s[k..])[0] == s[k];
    }
    hide Tokenize, IsSpace, Lower, SkipWord;
    TokenizeConcat(s[..k], s[k..]);
  }

  lemma {:induction false} TokenOfSomeWord(words: seq<string>, t: string)
    ensures t in WordTokens(words) <==> exists w :: w in words && t in Tokenize(w)
  {
    hide Tokenize;
    if words != [] {
      TokenOfSomeWord(words[1..], t);
      assert words == [words[0]] + words[1..];
    }
  }

  /** A text in which all words of another stand has all its tokens. */
  lemma WordsCarryTokens(a: string, b: string)
    requires forall w :: w in Words(a) ==> w in Words(b)
    ensures forall t :: t in Tokenize(a) ==> t in Tokenize(b)
  {
    hide Tokenize, Words;
    TokensOfWords(a);
    TokensOfWords(b);
    forall t | t in Tokenize(a) ensures t in Tokenize(b) {
      TokenOfSomeWord(Words(a), t);
      TokenOfSomeWord(Words(b), t);
    }
  }

  // ---------------------------------------------------------------- every word is in some child

  lemma {:induction false} WordOfSomeChild(children: seq<Chunk>, sentences: seq<string>, covered: nat, ws: seq<Span>,
                                           w: string)
    requires |children| == |ws| && Covers(|sentences|, covered, ws)
    requires w in NewWords(children, sentences, covered, ws)
    ensures exists c :: c in children && w in Words(c.content)
    decreases |ws|
  {
    hide Words, AllWords;
    var own := Drop(Words(children[0].content), |AllWords(sentences[ws[0].lo..covered])|);
    if w in own {
      assert children[0] in children;
    } else {
      WordOfSomeChild(children[1..], sentences, ws[0].hi, ws[1..], w);
      var c :| c in children[1..] && w in Words(c.content);
      assert c in children;
    }
  }

  lemma WordOfParent(cfg: Config, parent: Chunk, w: string)
    requires w in WordsFromChildren(cfg, parent)
    ensures exists c :: c in ChildChunks(cfg, parent) && w in Words(c.content)
  {
    hide NewWords, Words, Offsets, PieceSpans, Pieces, ChildWindows, Covers, WindowChunk;
    ChildWindowsCover(cfg, parent.content);
    WordOfSomeChild(ChildChunks(cfg, parent), Sentences(parent.content), 0, ChildWindows(cfg, parent.content), w);
  }

  lemma {:induction false} WordOfSomeFamily(cfg: Config, parents: seq<Chunk>, w: string)
    requires w in WordsFromFamilies(cfg, parents)
    ensures exists f, c :: f in Families(cfg, parents) && c in f.children && w in Words(c.content)
  {
    hide Words, WordsFromChildren, ChildChunks;
    var p := parents[0];
    assert Families(cfg, parents) == [Family(p, ChildChunks(cfg, p))] + Families(cfg, parents[1..]);
    if w in WordsFromChildren(cfg, p) {
      WordOfParent(cfg, p, w);
      var c :| c in ChildChunks(cfg, p) && w in Words(c.content);
      assert Family(p, ChildChunks(cfg, p)) in Families(cfg, parents);
    } else {
      WordOfSomeFamily(cfg, parents[1..], w);
      var f, c :| f in Families(cfg, parents[1..]) && c in f.children && w in Words(c.content);
      assert f in Families(cfg, parents);
    }
  }

  lemma WordsOfPart(pieces: seq<string>, a: nat, b: nat, w: string)
    requires a <= b <= |pieces| && w in AllWords(pieces[a..b])
    ensures w in AllWords(pieces)
  {
    hide Words, AllWords;
    assert pieces == pieces[..a] + pieces[a..b] + pieces[b..];
    AllWordsConcat(pieces[..a] + pieces[a..b], pieces[b..]);
    AllWordsConcat(pieces[..a], pieces[a..b]);
  }

  lemma ChildWordsInParent(cfg: Config, parent: Chunk, i: nat)
    requires i < |ChildChunks(cfg, parent)|
    ensures forall w :: w in Words(ChildChunks(cfg, parent)[i].content) ==> w in Words(parent.content)
  {
    hide Words, AllWords, Join, Offsets, PieceSpans, Pieces, ChildWindows, TokenEstimate;
    var ps, span := Sentences(parent.content), ChildWindows(cfg, parent.content)[i];
    PiecesKeepWords(Sentence, parent.content);
    JoinedBySpaces(ps[span.lo..span.hi]);
    forall w | w in Words(ChildChunks(cfg, parent)[i].content) ensures w in Words(parent.content) {
      WordsOfPart(ps, span.lo, span.hi, w);
    }
  }

  lemma {:induction false} WordsOfChunk(chunks: seq<Chunk>, i: nat)
    requires i < |chunks|
    ensures forall w :: w in Words(chunks[i].content) ==> w in ContentWords(chunks)
  {
    hide Words;
    if i > 0 {
      WordsOfChunk(chunks[1..], i - 1);
    }
  }

  /** Children have no token that their section has not ... */
  lemma ChildTokensInSection(cfg: Config, text: string, offset: nat, f: Family, c: Chunk)
    requires f in Families(cfg, ParentChunks(cfg, text, offset)) && c in f.children
    ensures forall t :: t in Tokenize(c.content) ==> t in Tokenize(text)
  {
    hide Words, Tokenize, ParentChunks, ChildChunks, ContentWords;
    var parents := ParentChunks(cfg, text, offset);
    var i: nat :| i < |Families(cfg, parents)| && Families(cfg, parents)[i] == f;
    var j: nat :| j < |f.children| && f.children[j] == c;
    ChildWordsInParent(cfg, parents[i], j);
    WordsOfChunk(parents, i);
    ParentsKeepWords(cfg, text, offset);
    WordsCarryTokens(c.content, text);
  }

  /** ... and every token of a section is a token of one of its children. */
  lemma SectionTokensInChildren(cfg: Config, text: string, offset: nat, t: string)
    requires t in Tokenize(text)
    ensures exists f, c ::
      f in Families(cfg, ParentChunks(cfg, text, offset)) && c in f.children && t in Tokenize(c.content)
  {
    hide Words, Tokenize, ParentChunks, ChildChunks, WordsFromFamilies, Families;
    TokensOfWords(text);
    TokenOfSomeWord(Words(text), t);
    var w :| w in Words(text) && t in Tokenize(w);
    SectionFromChildren(cfg, text, offset);
    WordOfSomeFamily(cfg, ParentChunks(cfg, text, offset), w);
    var f, c :| f in Families(cfg, ParentChunks(cfg, text, offset)) && c in f.children && w in Words(c.content);
    TokensOfWords(c.content);
    TokenOfSomeWord(Words(c.content), t);
  }

  // ---------------------------------------------------------------- documents

  ghost predicate InSomeSection(sections: seq<string>, quote: string) {
    exists s :: s in sections && SharesToken(quote, s)
  }

  ghost predicate InSomeChild(families: seq<Family>, quote: string) {
    exists f, c :: f in families && c in f.children && SharesToken(quote, c.content)
  }

  lemma SectionSharesIff(cfg: Config, text: string, offset: nat, quote: string)
    ensures SharesToken(quote, text) <==> InSomeChild(Families(cfg, ParentChunks(cfg, text, offset)), quote)
  {
    hide Tokenize, ParentChunks, Families;
    var families := Families(cfg, ParentChunks(cfg, text, offset));
    if SharesToken(quote, text) {
      var t :| t in Tokenize(quote) && t in Tokenize(text);
      SectionTokensInChildren(cfg, text, offset, t);
      var f, c :| f in families && c in f.children && t in Tokenize(c.content);
      assert SharesToken(quote, c.content);
    }
    if InSomeChild(families, quote) {
      var f, c :| f in families && c in f.children && SharesToken(quote, c.content);
      ChildTokensInSection(cfg, text, offset, f, c);
    }
  }

  /**
   * A quote has a token in common with a section of the document exactly when it has one in common with a child
   * chunk.
   */
  lemma {:induction false} DocumentSharesIff(cfg: Config, sections: seq<string>, offset: nat, quote: string)
    ensures InSomeSection(sections, quote) <==> InSomeChild(DocumentFamilies(cfg, sections, offset), quote)
    decreases |sections|
  {
    hide SharesToken, ParentChunks, Families;
    if sections != [] {
      var rest := DocumentFamilies(cfg, sections[1..], offset + |sections[0]| + 2);
      SectionSharesIff(cfg, sections[0], offset, quote);
      DocumentSharesIff(cfg, sections[1..], offset + |sections[0]| + 2, quote);
      assert sections == [sections[0]] + sections[1..];
      InEitherFamilies(Families(cfg, ParentChunks(cfg, sections[0], offset)), rest, quote);
    }
  }

  lemma InEitherFamilies(a: seq<Family>, b: seq<Family>, quote: string)
    ensures InSomeChild(a + b, quote) <==> InSomeChild(a, quote) || InSomeChild(b, quote)
  {
    hide SharesToken;
  }

  /** Every child chunk of the document is indexed in the scope. */
  ghost predicate ChildrenIndexed(families: seq<Family>, points: seq<Point>, tenant: string, coverage: string) {
    forall f, c :: f in families && c in f.children ==> IsIndexed(c, points, tenant, coverage)
  }

  ghost predicate IsIndexed(c: Chunk, points: seq<Point>, tenant: string, coverage: string) {
    exists p :: p in points && InScope(p.payload, tenant, coverage) && p.content == c.content
  }

  /** Nothing else is. */
  ghost predicate OnlyChildren(families: seq<Family>, points: seq<Point>, tenant: string, coverage: string) {
    forall p :: p in points && InScope(p.payload, tenant, coverage) ==>
      exists f, c :: f in families && c in f.children && c.content == p.content
  }

  lemma IndexedIsShared(families: seq<Family>, points: seq<Point>, quote: string, tenant: string, coverage: string)
    requires ChildrenIndexed(families, points, tenant, coverage) && InSomeChild(families, quote)
    ensures SomeChunkShares(points, quote, tenant, coverage)
  {
    hide SharesToken, InScope;
    var f, c :| f in families && c in f.children && SharesToken(quote, c.content);
    assert IsIndexed(c, points, tenant, coverage);
    var p :| p in points && InScope(p.payload, tenant, coverage) && p.content == c.content;
  }

  /**
   * When the child chunks and nothing else are indexed, exactly the quotes with a token of the document are
   * found under every hash.
   */
  lemma DocumentQuoteExact(cfg: Config, sections: seq<string>, points: seq<Point>, quote: string, tenant: string,
                           coverage: string)
    requires ChildrenIndexed(DocumentFamilies(cfg, sections, 0), points, tenant, coverage)
    requires OnlyChildren(DocumentFamilies(cfg, sections, 0), points, tenant, coverage)
    ensures (forall crc: string -> nat :: SomeChunkMeets(crc, points, quote, tenant, coverage))
       <==> InSomeSection(sections, quote)
  {
    hide SharesToken, DocumentFamilies, InScope, InSomeSection, SomeChunkMeets, ChildrenIndexed;
    var families := DocumentFamilies(cfg, sections, 0);
    DocumentSharesIff(cfg, sections, 0, quote);
    FoundIffShared(points, quote, tenant, coverage);
    if InSomeChild(families, quote) {
      IndexedIsShared(families, points, quote, tenant, coverage);
    }
    if SomeChunkShares(points, quote, tenant, coverage) {
      var p :| p in points && InScope(p.payload, tenant, coverage) && SharesToken(quote, p.content);
      var f, c :| f in families && c in f.children && c.content == p.content;
    }
  }

  // The least index: a point in the scope for each child, and nothing else.
  function ChildPoint(c: Chunk, tenant: string, coverage: string): Point {
    Point("", map["tenant_id" := tenant, "coverage_id" := coverage, "chunk_type" := "child"], c.content, None)
  }

  function ChildPoints(children: seq<Chunk>, tenant: string, coverage: string): seq<Point> {
    seq(|children|, i requires 0 <= i < |children| => ChildPoint(children[i], tenant, coverage))
  }

  function FamilyPoints(families: seq<Family>, tenant: string, coverage: string): seq<Point> {
    if families == [] then []
    else ChildPoints(families[0].children, tenant, coverage) + FamilyPoints(families[1..], tenant, coverage)
  }

  lemma ChildPointInScope(c: Chunk, tenant: string, coverage: string)
    ensures InScope(ChildPoint(c, tenant, coverage).payload, tenant, coverage)
    ensures ChildPoint(c, tenant, coverage).content == c.content
  {
  }

  lemma InChildPoints(children: seq<Chunk>, p: Point, tenant: string, coverage: string)
    ensures p in ChildPoints(children, tenant, coverage)
       <==> exists c :: c in children && p == ChildPoint(c, tenant, coverage)
  {
    hide ChildPoint;
    var points := ChildPoints(children, tenant, coverage);
    assert forall i :: 0 <= i < |children| ==> points[i] == ChildPoint(children[i], tenant, coverage);
  }

  lemma {:induction false} InFamilyPoints(families: seq<Family>, p: Point, tenant: string, coverage: string)
    ensures p in FamilyPoints(families, tenant, coverage)
       <==> exists f, c :: f in families && c in f.children && p == ChildPoint(c, tenant, coverage)
  {
    hide ChildPoint, ChildPoints;
    if families != [] {
      InChildPoints(families[0].children, p, tenant, coverage);
      InFamilyPoints(families[1..], p, tenant, coverage);
      assert families == [families[0]] + families[1..];
    }
  }

  lemma FamilyPointsIndex(families: seq<Family>, tenant: string, coverage: string)
    ensures ChildrenIndexed(families, FamilyPoints(families, tenant, coverage), tenant, coverage)
    ensures OnlyChildren(families, FamilyPoints(families, tenant, coverage), tenant, coverage)
  {
    hide InScope, ChildPoint, FamilyPoints;
    var points := FamilyPoints(families, tenant, coverage);
    forall f, c | f in families && c in f.children
      ensures IsIndexed(c, points, tenant, coverage)
    {
      ChildPointInScope(c, tenant, coverage);
      InFamilyPoints(families, ChildPoint(c, tenant, coverage), tenant, coverage);
      var p := ChildPoint(c, tenant, coverage);
      assert p in points && InScope(p.payload, tenant, coverage) && p.content == c.content;
    }
    forall p | p in points
      ensures exists f, c :: f in families && c in f.children && c.content == p.content
    {
      InFamilyPoints(families, p, tenant, coverage);
      var f, c :| f in families && c in f.children && p == ChildPoint(c, tenant, coverage);
      ChildPointInScope(c, tenant, coverage);
    }
  }

  /** Whatever the hash and whatever else is indexed, once the document's child chunks are. */
  ghost predicate FoundInDocument(cfg: Config, sections: seq<string>, quote: string, tenant: string, coverage: string) {
    forall crc: string -> nat, points: seq<Point> ::
      ChildrenIndexed(DocumentFamilies(cfg, sections, 0), points, tenant, coverage) ==>
        SomeChunkMeets(crc, points, quote, tenant, coverage)
  }

  /**
   * End to end: an indexed document is sure to answer for exactly the texts that have a token in common with one
   * of its sections; chunking takes no token away and adds none.
   */
  lemma DocumentQuoteFound(cfg: Config, sections: seq<string>, quote: string, tenant: string, coverage: string)
    ensures FoundInDocument(cfg, sections, quote, tenant, coverage) <==> InSomeSection(sections, quote)
  {
    hide SharesToken, DocumentFamilies, InScope, InSomeSection, SomeChunkMeets, ChildrenIndexed, OnlyChildren,
         FamilyPoints;
    var families := DocumentFamilies(cfg, sections, 0);
    if InSomeSection(sections, quote) {
      DocumentSharesIff(cfg, sections, 0, quote);
      forall crc: string -> nat, points: seq<Point> | ChildrenIndexed(families, points, tenant, coverage)
        ensures SomeChunkMeets(crc, points, quote, tenant, coverage)
      {
        IndexedIsShared(families, points, quote, tenant, coverage);
        FoundIffShared(points, quote, tenant, coverage);
      }
    }
    if FoundInDocument(cfg, sections, quote, tenant, coverage) {
      FamilyPointsIndex(families, tenant, coverage);
      DocumentQuoteExact(cfg, sections, FamilyPoints(families, tenant, coverage), quote, tenant, coverage);
    }
  }

  /** In particular for a text with a token, cut out of a section at token boundaries. */
  lemma SectionSliceIsFound(cfg: Config, sections: seq<string>, k: nat, before: string, quote: string, after: string,
                            tenant: string, coverage: string)
    requires k < |sections| && sections[k] == before + quote + after
    ensures !CutsToken(Lower(before), Lower(quote)) && !CutsToken(Lower(before + quote), Lower(after))
        ==> (FoundInDocument(cfg, sections, quote, tenant, coverage) <==> Tokenize(quote) != [])
  {
    hide Tokenize, CutsToken, Lower, FoundInDocument;
    DocumentQuoteFound(cfg, sections, quote, tenant, coverage);
    if !CutsToken(Lower(before), Lower(quote)) && !CutsToken(Lower(before + quote), Lower(after)) {
      QuoteKeepsTokens(before, quote, after);
      if Tokenize(quote) != [] {
        assert Tokenize(quote)[0] in Tokenize(sections[k]);
        assert SharesToken(quote, sections[k]);
      }
    }
  }
}
