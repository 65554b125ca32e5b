/** The hierarchical chunker: sections to parent chunks, parent chunks to overlapping child chunks. */
module Chunker {
  import opened Text
  import opened Splitting
  import opened Windows

  datatype Config = Config(parentMaxTokens: nat, childMaxTokens: nat, childOverlapTokens: nat)
  const DEFAULT := Config(2000, 200, 20)

  datatype Chunk = Chunk(content: string, charStart: nat, charEnd: nat, tokenEstimate: nat)
  datatype Family = Family(parent: Chunk, children: seq<Chunk>)

  // `int(len(text.split()) * 1.3)`
  function TokenEstimate(s: string): nat {
    |Words(s)| * 13 / 10
  }

  function Estimates(pieces: seq<string>): (tok: seq<nat>)
    ensures |tok| == |pieces|
  {
    seq(|pieces|, i requires 0 <= i < |pieces| => TokenEstimate(pieces[i]))
  }

  // ---------------------------------------------------------------- chunks as windows over pieces

  predicate Proper(n: nat, w: Span) {
    w.lo < w.hi <= n
  }

  predicate AllProper(n: nat, ws: seq<Span>) {
    forall i :: 0 <= i < |ws| ==> Proper(n, ws[i])
  }

  function MakeChunk(content: string, charStart: nat, charEnd: nat): Chunk {
    Chunk(content, charStart, charEnd, TokenEstimate(content))
  }

  /** The chunk made of the pieces of one window. */
  function WindowChunk(sep: string, pieces: seq<string>, offsets: seq<Span>, base: nat, w: Span): Chunk
    requires Proper(|pieces|, w) && |offsets| == |pieces|
  {
    MakeChunk(Join(sep, pieces[w.lo..w.hi]), base + offsets[w.lo].lo, base + offsets[w.hi - 1].hi)
  }

  function WindowChunks(sep: string, pieces: seq<string>, offsets: seq<Span>, base: nat,
                        ws: seq<Span>): (cs: seq<Chunk>)
    requires AllProper(|pieces|, ws) && |offsets| == |pieces|
    ensures |cs| == |ws|
    ensures forall i :: 0 <= i < |ws| ==> cs[i] == WindowChunk(sep, pieces, offsets, base, ws[i])
  {
    seq(|ws|, i requires 0 <= i < |ws| => WindowChunk(sep, pieces, offsets, base, ws[i]))
  }

  lemma {:induction false} GroupsProper(tok: seq<nat>, a: nat, budget: nat)
    requires a <= |tok|
    ensures AllProper(|tok|, Groups(tok, a, budget))
    decreases |tok| - a
  {
    hide WindowEnd;
    if a < |tok| {
      GroupsProper(tok, WindowEnd(tok, a, a + 1, budget), budget);
    }
  }

  lemma {:induction false} WindowsProper(tok: seq<nat>, a: nat, budget: nat, overlap: nat)
    requires a < |tok|
    ensures AllProper(|tok|, WindowsFrom(tok, a, budget, overlap))
    decreases |tok| - a
  {
    hide WindowEnd, NextStart;
    var e := WindowEnd(tok, a, a + 1, budget);
    if e < |tok| {
      WindowsProper(tok, NextStart(tok, a, e, e, overlap), budget, overlap);
    }
  }

  function Paragraphs(text: string): seq<string> {
    Pieces(text, PieceSpans(Paragraph, text))
  }

  function Sentences(content: string): seq<string> {
    Pieces(content, PieceSpans(Sentence, content))
  }

  function ParentGroups(cfg: Config, text: string): (gs: seq<Span>)
    ensures AllProper(|Paragraphs(text)|, gs)
  {
    var tok := Estimates(Paragraphs(text));
    GroupsProper(tok, 0, cfg.parentMaxTokens);
    Groups(tok, 0, cfg.parentMaxTokens)
  }

  function ChildWindows(cfg: Config, content: string): (ws: seq<Span>)
    ensures AllProper(|Sentences(content)|, ws)
  {
    var tok := Estimates(Sentences(content));
    if tok == [] then [] else
    WindowsProper(tok, 0, cfg.childMaxTokens, cfg.childOverlapTokens);
    WindowsFrom(tok, 0, cfg.childMaxTokens, cfg.childOverlapTokens)
  }

  function ParentChunks(cfg: Config, text: string, sectionOffset: nat): seq<Chunk> {
    var ps := Paragraphs(text);
    WindowChunks("\n\n", ps, Offsets(text, ps, 0), sectionOffset, ParentGroups(cfg, text))
  }

  function ChildChunks(cfg: Config, parent: Chunk): seq<Chunk> {
    var ps := Sentences(parent.content);
    WindowChunks(" ", ps, Offsets(parent.content, ps, 0), parent.charStart, ChildWindows(cfg, parent.content))
  }

  function Families(cfg: Config, parents: seq<Chunk>): seq<Family> {
    seq(|parents|, i requires 0 <= i < |parents| => Family(parents[i], ChildChunks(cfg, parents[i])))
  }

  /** Every section in turn; sections are joined by two newlines when offsets are counted. */
  function DocumentFamilies(cfg: Config, sections: seq<string>, globalOffset: nat): seq<Family>
    decreases |sections|
  {
    if sections == [] then []
    else Families(cfg, ParentChunks(cfg, sections[0], globalOffset))
         + DocumentFamilies(cfg, sections[1..], globalOffset + |sections[0]| + 2)
  }

  // ---------------------------------------------------------------- the loops

  // The variables that the `flush` closure shares with the loop over the paragraphs.
  class ParentBuilder {
    var parents: seq<Chunk>
    var group: seq<string>
    var groupTokens: nat
    var groupStart: Option<nat>
    var groupEnd: nat

    constructor ()
      ensures parents == [] && group == [] && groupTokens == 0 && groupStart == None && groupEnd == 0
    {
      parents, group, groupTokens, groupStart, groupEnd := [], [], 0, None, 0;
    }

    /** The open group is the paragraphs from `a` up to `k`. */
    ghost predicate Holds(paragraphs: seq<string>, offsets: seq<Span>, a: nat, k: nat)
      reads this
    {
      && a <= k <= |paragraphs| == |offsets|
      && group == paragraphs[a..k]
      && groupTokens == Sum(Estimates(paragraphs), a, k)
      && (if a < k then groupStart == Some(offsets[a].lo) && groupEnd == offsets[k - 1].hi else groupStart == None)
    }

    method Flush(sectionOffset: nat, ghost paragraphs: seq<string>, ghost offsets: seq<Span>, ghost a: nat,
                 ghost k: nat)
      requires Holds(paragraphs, offsets, a, k)
      modifies this
      ensures Holds(paragraphs, offsets, k, k)
      ensures parents == old(parents)
        + if a == k then [] else [WindowChunk("\n\n", paragraphs, offsets, sectionOffset, Span(a, k))]
    {
      hide Join, Estimates, TokenEstimate;
      if group == [] {
        return;
      }
      var content := Join("\n\n", group);
      parents := parents + [MakeChunk(content, sectionOffset + groupStart.GetOr(0), sectionOffset + groupEnd)];
      group, groupTokens, groupStart := [], 0, None;
    }

    method Add(paragraph: string, paraTokens: nat, start: nat, end: nat,
               ghost paragraphs: seq<string>, ghost offsets: seq<Span>, ghost a: nat, ghost k: nat)
      requires Holds(paragraphs, offsets, a, k) && k < |paragraphs|
      requires paragraph == paragraphs[k] && paraTokens == TokenEstimate(paragraph)
      requires start == offsets[k].lo && end == offsets[k].hi
      modifies this
      ensures Holds(paragraphs, offsets, a, k + 1)
      ensures parents == old(parents)
    {
      hide TokenEstimate;
      if groupStart == None {
        groupStart := Some(start);
      }
      group := group + [paragraph];
      groupTokens := groupTokens + paraTokens;
      groupEnd := end;
    }
  }

  method SplitIntoParentChunks(cfg: Config, text: string, sectionOffset: nat) returns (parents: seq<Chunk>)
    ensures parents == ParentChunks(cfg, text, sectionOffset)
  {
    hide Offsets, WindowEnd, Sum, WindowChunk, Paragraphs, Groups, TokenEstimate;
    var paragraphs := Paragraphs(text);
    var offsets := LocateOffsets(text, paragraphs);
    ghost var tok := Estimates(paragraphs);
    var budget := cfg.parentMaxTokens;
    var b := new ParentBuilder();
    ghost var done: seq<Span> := [];
    ghost var a := 0;
    SumNothing(tok, 0);
    for k := 0 to |paragraphs|
      invariant 0 <= a <= k && (a == k ==> k == 0)
      invariant b.Holds(paragraphs, offsets, a, k)
      invariant a < k ==> WindowEnd(tok, a, a + 1, budget) == WindowEnd(tok, a, k, budget)
      invariant ParentGroups(cfg, text) == done + Groups(tok, a, budget)
      invariant AllProper(|paragraphs|, done)
      invariant b.parents == WindowChunks("\n\n", paragraphs, offsets, sectionOffset, done)
    {
      var paraTokens := TokenEstimate(paragraphs[k]);
      if b.group != [] && b.groupTokens + paraTokens > budget {
        b.Flush(sectionOffset, paragraphs, offsets, a, k);
        GroupCloses(tok, a, k, budget);
        done, a := done + [Span(a, k)], k;
      } else if a < k {
        GroupGrows(tok, a, k, budget);
      }
      b.Add(paragraphs[k], paraTokens, offsets[k].lo, offsets[k].hi, paragraphs, offsets, a, k);
    }
    ghost var n := |paragraphs|;
    b.Flush(sectionOffset, paragraphs, offsets, a, n);
    LastGroup(tok, a, budget);
    if a < n {
      done := done + [Span(a, n)];
    }
    parents := b.parents;
  }

  lemma SumNothing(tok: seq<nat>, a: nat)
    requires a <= |tok|
    ensures Sum(tok, a, a) == 0
  {
  }

  lemma LastGroup(tok: seq<nat>, a: nat, budget: nat)
    requires a <= |tok|
    requires a < |tok| ==> WindowEnd(tok, a, a + 1, budget) == WindowEnd(tok, a, |tok|, budget)
    ensures Groups(tok, a, budget) == if a < |tok| then [Span(a, |tok|)] else []
  {
  }

  lemma GroupCloses(tok: seq<nat>, a: nat, k: nat, budget: nat)
    requires a < k <= |tok| && (k < |tok| ==> Sum(tok, a, k) + tok[k] > budget)
    requires WindowEnd(tok, a, a + 1, budget) == WindowEnd(tok, a, k, budget)
    ensures Groups(tok, a, budget) == [Span(a, k)] + Groups(tok, k, budget)
  {
  }

  lemma GroupGrows(tok: seq<nat>, a: nat, k: nat, budget: nat)
    requires a < k < |tok| && Sum(tok, a, k) + tok[k] <= budget
    ensures WindowEnd(tok, a, k, budget) == WindowEnd(tok, a, k + 1, budget)
  {
  }

  // The two inner loops of the child splitter: take pieces while they fit, then step back for the overlap.
  method GrowWindow(tok: seq<nat>, startIdx: nat, maxTokens: nat) returns (idx: nat)
    requires startIdx < |tok|
    ensures idx == WindowEnd(tok, startIdx, startIdx + 1, maxTokens)
  {
    idx := startIdx;
    var groupTokens := 0;
    while idx < |tok| && (idx == startIdx || groupTokens + tok[idx] <= maxTokens)
      invariant startIdx <= idx <= |tok| && groupTokens == Sum(tok, startIdx, idx)
      invariant startIdx < idx ==>
        WindowEnd(tok, startIdx, startIdx + 1, maxTokens) == WindowEnd(tok, startIdx, idx, maxTokens)
    {
      groupTokens := groupTokens + tok[idx];
      idx := idx + 1;
    }
  }

  method StepBack(tok: seq<nat>, startIdx: nat, end: nat, overlap: nat) returns (idx: nat)
    requires startIdx < end <= |tok|
    ensures idx == NextStart(tok, startIdx, end, end, overlap)
  {
    var back, overlapTokens := end - 1, 0;
    while back > startIdx && overlapTokens < overlap
      invariant startIdx <= back < end && overlapTokens == Sum(tok, back + 1, end)
      invariant NextStart(tok, startIdx, end, end, overlap) == NextStart(tok, startIdx, back + 1, end, overlap)
    {
      SumSplit(tok, back, back + 1, end);
      overlapTokens := overlapTokens + tok[back];
      back := back - 1;
    }
    idx := Max(back + 1, startIdx + 1);
  }

  // One round of the child loop: the window that starts at `startIdx`, and where the next one starts.
  method NextChild(cfg: Config, parent: Chunk, sentences: seq<string>, offsets: seq<Span>, tok: seq<nat>, startIdx: nat)
    returns (child: Chunk, idx: nat)
    requires |offsets| == |tok| == |sentences| && startIdx < |sentences|
    ensures var e := WindowEnd(tok, startIdx, startIdx + 1, cfg.childMaxTokens);
      && child == WindowChunk(" ", sentences, offsets, parent.charStart, Span(startIdx, e))
      && idx == if e == |tok| then e else NextStart(tok, startIdx, e, e, cfg.childOverlapTokens)
  {
    hide WindowEnd, NextStart, Join, TokenEstimate;
    idx := GrowWindow(tok, startIdx, cfg.childMaxTokens);
    var content := Join(" ", sentences[startIdx..idx]);
    child := MakeChunk(content, parent.charStart + offsets[startIdx].lo, parent.charStart + offsets[idx - 1].hi);
    if idx < |tok| {
      idx := StepBack(tok, startIdx, idx, cfg.childOverlapTokens);
    }
  }

  // The windows the child loop has still to do.
  function RestWindows(cfg: Config, tok: seq<nat>, idx: nat): seq<Span> {
    if idx < |tok| then WindowsFrom(tok, idx, cfg.childMaxTokens, cfg.childOverlapTokens) else []
  }

  /** The children made so far are those of the windows `done`, and the loop stands before the windows left. */
  ghost predicate ChildrenSoFar(cfg: Config, parent: Chunk, offsets: seq<Span>, idx: nat, done: seq<Span>,
                                children: seq<Chunk>)
    requires |offsets| == |Sentences(parent.content)|
  {
    var sentences := Sentences(parent.content);
    && idx <= |sentences|
    && AllProper(|sentences|, done)
    && ChildWindows(cfg, parent.content) == done + RestWindows(cfg, Estimates(sentences), idx)
    && children == WindowChunks(" ", sentences, offsets, parent.charStart, done)
  }

  method SplitIntoChildChunks(cfg: Config, parent: Chunk) returns (children: seq<Chunk>)
    ensures children == ChildChunks(cfg, parent)
  {
    hide *;
    var sentences := Sentences(parent.content);
    var offsets := LocateOffsets(parent.content, sentences);
    var tok := Estimates(sentences);
    var idx := 0;
    children := [];
    ghost var done: seq<Span> := [];
    NoChildrenYet(cfg, parent, offsets);
    while idx < |sentences|
      invariant idx <= |sentences| && ChildrenSoFar(cfg, parent, offsets, idx, done, children)
      decreases |sentences| - idx
    {
      ghost var w := Span(idx, WindowEnd(tok, idx, idx + 1, cfg.childMaxTokens));
      var child, next := NextChild(cfg, parent, sentences, offsets, tok, idx);
      OneMoreChild(cfg, parent, offsets, idx, done, children, next);
      children, idx, done := children + [child], next, done + [w];
    }
    AllChildren(cfg, parent, offsets, idx, done, children);
  }

  lemma NoChildrenYet(cfg: Config, parent: Chunk, offsets: seq<Span>)
    requires |offsets| == |Sentences(parent.content)|
    ensures ChildrenSoFar(cfg, parent, offsets, 0, [], [])
  {
    hide Sentences, Estimates, WindowsFrom, WindowChunks, ChildWindows, AllProper;
    ChildWindowsAre(cfg, parent.content);
    NoWindows(" ", Sentences(parent.content), offsets, parent.charStart);
  }

  lemma OneMoreChild(cfg: Config, parent: Chunk, offsets: seq<Span>, idx: nat, done: seq<Span>, children: seq<Chunk>,
                     next: nat)
    requires |offsets| == |Sentences(parent.content)| && idx < |offsets|
    requires ChildrenSoFar(cfg, parent, offsets, idx, done, children)
    requires var tok := Estimates(Sentences(parent.content));
      var e := WindowEnd(tok, idx, idx + 1, cfg.childMaxTokens);
      next == if e == |tok| then e else NextStart(tok, idx, e, e, cfg.childOverlapTokens)
    ensures var sentences := Sentences(parent.content);
      var w := Span(idx, WindowEnd(Estimates(sentences), idx, idx + 1, cfg.childMaxTokens));
      && idx < next <= |sentences|
      && ChildrenSoFar(cfg, parent, offsets, next, done + [w],
                       children + [WindowChunk(" ", sentences, offsets, parent.charStart, w)])
  {
    hide Sentences, Estimates, WindowEnd, NextStart, WindowsFrom, WindowChunk, WindowChunks, ChildWindows, AllProper;
    var sentences := Sentences(parent.content);
    var tok := Estimates(sentences);
    UnfoldWindows(tok, idx, cfg.childMaxTokens, cfg.childOverlapTokens);
    AddWindow(" ", sentences, offsets, parent.charStart, done,
              Span(idx, WindowEnd(tok, idx, idx + 1, cfg.childMaxTokens)));
  }

  lemma AllChildren(cfg: Config, parent: Chunk, offsets: seq<Span>, idx: nat, done: seq<Span>, children: seq<Chunk>)
    requires offsets == Offsets(parent.content, Sentences(parent.content), 0)
    requires ChildrenSoFar(cfg, parent, offsets, idx, done, children) && idx == |Sentences(parent.content)|
    ensures children == ChildChunks(cfg, parent)
  {
    hide Sentences, Estimates, WindowsFrom, WindowChunks, ChildWindows, Offsets, AllProper;
    assert done + [] == done;
  }

  lemma AddWindow(sep: string, pieces: seq<string>, offsets: seq<Span>, base: nat, done: seq<Span>, w: Span)
    requires |offsets| == |pieces| && AllProper(|pieces|, done) && w.lo < w.hi <= |pieces|
    ensures AllProper(|pieces|, done + [w])
    ensures WindowChunks(sep, pieces, offsets, base, done + [w])
         == WindowChunks(sep, pieces, offsets, base, done) + [WindowChunk(sep, pieces, offsets, base, w)]
  {
    hide WindowChunk;
  }

  lemma NoWindows(sep: string, pieces: seq<string>, offsets: seq<Span>, base: nat)
    requires |offsets| == |pieces|
    ensures AllProper(|pieces|, []) && WindowChunks(sep, pieces, offsets, base, []) == []
  {
  }

  lemma ChildWindowsAre(cfg: Config, content: string)
    ensures var tok := Estimates(Sentences(content));
      ChildWindows(cfg, content)
        == if tok == [] then [] else WindowsFrom(tok, 0, cfg.childMaxTokens, cfg.childOverlapTokens)
  {
  }

  lemma UnfoldWindows(tok: seq<nat>, a: nat, budget: nat, overlap: nat)
    requires a < |tok|
    ensures var e := WindowEnd(tok, a, a + 1, budget);
      WindowsFrom(tok, a, budget, overlap)
        == [Span(a, e)] + if e == |tok| then [] else WindowsFrom(tok, NextStart(tok, a, e, e, overlap), budget, overlap)
  {
  }

  method ChunkDocument(cfg: Config, sections: seq<string>) returns (families: seq<Family>)
    ensures families == DocumentFamilies(cfg, sections, 0)
  {
    hide ParentChunks, Families;
    families := [];
    var globalOffset: nat := 0;
    for i := 0 to |sections|
      invariant families + DocumentFamilies(cfg, sections[i..], globalOffset) == DocumentFamilies(cfg, sections, 0)
    {
      assert sections[i..][1..] == sections[i + 1..];
      var chunked := ChunkSection(cfg, sections[i], globalOffset);
      families := families + chunked;
      globalOffset := globalOffset + |sections[i]| + 2;
    }
  }

  method ChunkSection(cfg: Config, text: string, globalOffset: nat) returns (families: seq<Family>)
    ensures families == Families(cfg, ParentChunks(cfg, text, globalOffset))
  {
    hide ParentChunks, AllSpace;
    families := [];
    if !AllSpace(text) {
      var parents := SplitIntoParentChunks(cfg, text, globalOffset);
      families := ChunkFamilies(cfg, parents);
    } else {
      BlankSection(cfg, text, globalOffset);
    }
  }

  method ChunkFamilies(cfg: Config, parents: seq<Chunk>) returns (families: seq<Family>)
    ensures families == Families(cfg, parents)
  {
    hide ChildChunks;
    families := [];
    for i := 0 to |parents|
      invariant families == Families(cfg, parents[..i])
    {
      var children := SplitIntoChildChunks(cfg, parents[i]);
      families := families + [Family(parents[i], children)];
    }
    assert parents[..|parents|] == parents;
  }

  lemma BlankSection(cfg: Config, text: string, offset: nat)
    requires AllSpace(text)
    ensures ParentChunks(cfg, text, offset) == []
  {
    var spans := PieceSpans(Paragraph, text);
    hide AllSpace, PieceSpans, Blank;
    if spans != [] {
      VisibleText(text, spans[0]);
    }
  }

  lemma VisibleText(text: string, s: Span)
    requires Within(text, s) && !Blank(text, s)
    ensures !AllSpace(text)
  {
    hide IsSpace;
  }
}
