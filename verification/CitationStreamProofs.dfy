/** What the streamed events say about the whole completion, for every way it is cut into deltas. */
module CitationStreamProofs {
  import opened Text
  import opened CitationGrammar
  import opened CitationStream

  // ---------------------------------------------------------------- conservation and the held-back buffer

  /** Nothing is lost, added or reordered: the chunk contents concatenate to the deltas. */
  lemma {:induction false} ChunksConserve(buffer: string, deltas: seq<string>)
    ensures Flatten(Chunks(buffer, deltas)) == buffer + Flatten(deltas)
    decreases |deltas|
  {
    hide *;
    UnfoldChunks(buffer, deltas);
    if deltas == [] {
      FlattenSending(buffer);
      assert buffer + [] == buffer;
    } else {
      var sent, held := Sent(buffer, deltas[0]), Held(buffer, deltas[0]);
      ChunksConserve(held, deltas[1..]);
      FlattenConcat(Sending(sent), Chunks(held, deltas[1..]));
      FlattenSending(sent);
      SentThenHeld(buffer, deltas[0]);
      assert sent + (held + Flatten(deltas[1..])) == (sent + held) + Flatten(deltas[1..]);
      assert (buffer + deltas[0]) + Flatten(deltas[1..]) == buffer + (deltas[0] + Flatten(deltas[1..]));
    }
  }

  lemma UnfoldChunks(buffer: string, deltas: seq<string>)
    ensures deltas == [] ==> Chunks(buffer, deltas) == Sending(buffer) && Flatten(deltas) == []
    ensures deltas != [] ==>
      && Chunks(buffer, deltas) == Sending(Sent(buffer, deltas[0])) + Chunks(Held(buffer, deltas[0]), deltas[1..])
      && Flatten(deltas) == deltas[0] + Flatten(deltas[1..])
  {
    hide Sent, Held, Sending;
  }

  lemma FlattenSending(content: string)
    ensures Flatten(Sending(content)) == content
  {
    assert [content][1..] == [];
  }

  lemma SentThenHeld(buffer: string, delta: string)
    ensures Sent(buffer, delta) + Held(buffer, delta) == buffer + delta
  {
    hide Sent;
  }

  /** The text kept back after any number of deltas. */
  function HeldAfter(deltas: seq<string>): string {
    if deltas == [] then "" else Held(HeldAfter(deltas[..|deltas| - 1]), deltas[|deltas| - 1])
  }

  /** Text is only ever kept back because it is short, or because it is one citation that is not finished. */
  predicate Waiting(buffer: string) {
    || |buffer| < 100
    || (&& |buffer| < 2000
        && buffer[0] == '['
        && (forall i :: 1 <= i < |buffer| ==> buffer[i] != '[')
        && MatchPrefix(ENFORCER, buffer).None?)
  }

  lemma {:induction false} HeldBackOnlyWhileWaiting(deltas: seq<string>)
    ensures Waiting(HeldAfter(deltas))
  {
    hide Waiting, Held;
    if deltas == [] {
      assert Waiting("") by { EmptyWaits(); }
    } else {
      HeldBackOnlyWhileWaiting(deltas[..|deltas| - 1]);
      HeldWaits(HeldAfter(deltas[..|deltas| - 1]), deltas[|deltas| - 1]);
    }
  }

  lemma EmptyWaits()
    ensures Waiting("")
  {
  }

  lemma HeldWaits(before: string, delta: string)
    requires Waiting(before)
    ensures Waiting(Held(before, delta))
  {
    hide MatchPrefix, LastIndexOf;
    var b := before + delta;
    if delta == "" || |b| < FLUSH_THRESHOLD {
      assert Held(before, delta) == b;
      assert delta == "" ==> b == before;
    } else {
      var k := FlushTo(b, false);
      assert Held(before, delta) == b[k..];
      assert forall i :: 1 <= i < |b[k..]| ==> b[k..][i] == b[k + i];
    }
  }

  // ---------------------------------------------------------------- announcements

  function AnnouncedBy(e: Event): seq<Citation> {
    if e.CitationFound? then [e.cite] else []
  }

  function Announced(events: seq<Event>): seq<Citation> {
    if events == [] then [] else AnnouncedBy(events[0]) + Announced(events[1..])
  }

  /** All citations carried by the chunk events, in order. */
  function ChunkCitations(chunks: seq<string>): seq<Citation> {
    if chunks == [] then [] else Citations(chunks[0]) + ChunkCitations(chunks[1..])
  }

  lemma {:induction false} AnnouncedConcat(a: seq<Event>, b: seq<Event>)
    ensures Announced(a + b) == Announced(a) + Announced(b)
  {
    hide AnnouncedBy;
    if a == [] {
      assert a + b == b;
    } else {
      assert (a + b)[1..] == a[1..] + b;
      AnnouncedConcat(a[1..], b);
    }
  }

  lemma {:induction false} AnnouncedByAnnounce(cites: seq<Citation>)
    ensures Announced(Announce(cites)) == cites
  {
    if cites != [] {
      assert Announce(cites)[1..] == Announce(cites[1..]);
      AnnouncedByAnnounce(cites[1..]);
    }
  }

  lemma {:induction false} FreshConcat(a: seq<Citation>, b: seq<Citation>, seen: set<Citation>)
    ensures Fresh(a + b, seen) == Fresh(a, seen) + Fresh(b, seen + Elements(a))
  {
    if a == [] {
      assert a + b == b && seen + Elements(a) == seen;
    } else {
      assert (a + b)[1..] == a[1..] + b;
      assert a == [a[0]] + a[1..];
      assert Elements(a) == {a[0]} + Elements(a[1..]);
      if a[0] in seen {
        assert seen + Elements(a) == seen + Elements(a[1..]);
        FreshConcat(a[1..], b, seen);
      } else {
        assert seen + Elements(a) == seen + {a[0]} + Elements(a[1..]);
        FreshConcat(a[1..], b, seen + {a[0]});
      }
    }
  }

  lemma {:induction false} FreshIsFirstOccurrences(cites: seq<Citation>)
    ensures Fresh(cites, {}) == FirstOccurrences(cites)
  {
    if cites != [] {
      var n := |cites| - 1;
      assert cites == cites[..n] + [cites[n]];
      FreshIsFirstOccurrences(cites[..n]);
      FreshConcat(cites[..n], [cites[n]], {});
      var seen := {} + Elements(cites[..n]);
      assert [cites[n]][1..] == [];
      assert Fresh([cites[n]], seen) == if cites[n] in seen then [] else [cites[n]];
      assert cites[n] in seen <==> cites[n] in cites[..n];
    }
  }

  lemma {:induction false} AnnouncedAreFresh(chunks: seq<string>, seen: set<Citation>)
    ensures Announced(Events(chunks, seen)) == Fresh(ChunkCitations(chunks), seen)
  {
    hide Citations;
    if chunks != [] {
      var cites := Citations(chunks[0]);
      var first := Announce(Fresh(cites, seen));
      AnnouncedConcat(first, [Chunk(chunks[0], cites)]);
      AnnouncedByAnnounce(Fresh(cites, seen));
      assert [Chunk(chunks[0], cites)][1..] == [];
      assert Announced(EventsOf(chunks[0], seen)) == Fresh(cites, seen);
      AnnouncedConcat(EventsOf(chunks[0], seen), Events(chunks[1..], seen + Elements(cites)));
      AnnouncedAreFresh(chunks[1..], seen + Elements(cites));
      FreshConcat(cites, ChunkCitations(chunks[1..]), seen);
    }
  }

  /** Over a whole stream each distinct citation is announced exactly once, in order of first appearance. */
  lemma AnnouncedOnce(deltas: seq<string>)
    ensures Announced(Events(Chunks("", deltas), {})) == FirstOccurrences(ChunkCitations(Chunks("", deltas)))
  {
    AnnouncedAreFresh(Chunks("", deltas), {});
    FreshIsFirstOccurrences(ChunkCitations(Chunks("", deltas)));
  }

  // ---------------------------------------------------------------- chunked scan = whole scan

  /** What scanning the chunks one by one finds, at places of the whole text. */
  function ScanChunks(chunks: seq<string>, base: nat): seq<Found> {
    if chunks == [] then []
    else FindAll(ENFORCER, chunks[0], base) + ScanChunks(chunks[1..], base + |chunks[0]|)
  }

  predicate CutAt(chunks: seq<string>, base: nat, p: int) {
    chunks != [] && (p == base + |chunks[0]| || CutAt(chunks[1..], base + |chunks[0]|, p))
  }

  ghost predicate NoneCut(found: seq<Found>, chunks: seq<string>, base: nat) {
    forall p :: CutAt(chunks, base, p) ==> NoneStraddles(found, p)
  }

  lemma {:induction false} CutsFollow(chunks: seq<string>, base: nat, p: int)
    requires CutAt(chunks, base, p)
    ensures base <= p <= base + |Flatten(chunks)|
  {
    if p != base + |chunks[0]| {
      CutsFollow(chunks[1..], base + |chunks[0]|, p);
    }
  }

  lemma {:induction false} ScannedAreUncut(chunks: seq<string>, base: nat)
    ensures NoneCut(ScanChunks(chunks, base), chunks, base)
    ensures forall p :: p <= base ==> NoneStraddles(ScanChunks(chunks, base), p)
  {
    hide FindAll;
    if chunks != [] {
      var next := base + |chunks[0]|;
      ScannedAreUncut(chunks[1..], next);
      forall p: int | CutAt(chunks, base, p) || p <= base
        ensures NoneStraddles(ScanChunks(chunks, base), p)
      {
        if CutAt(chunks[1..], next, p) {
          CutsFollow(chunks[1..], next, p);
        }
        FoundWithin(ENFORCER, chunks[0], base, p);
        ConcatUnstraddled(FindAll(ENFORCER, chunks[0], base), ScanChunks(chunks[1..], next), p);
      }
    }
  }

  lemma {:induction false} UncutScan(chunks: seq<string>, base: nat)
    requires NoneCut(FindAll(ENFORCER, Flatten(chunks), base), chunks, base)
    ensures ScanChunks(chunks, base) == FindAll(ENFORCER, Flatten(chunks), base)
  {
    hide *;
    if chunks == [] {
      ScanNothing(base);
    } else {
      var rest, next := Flatten(chunks[1..]), base + |chunks[0]|;
      UnfoldScan(chunks, base);
      FirstUnstraddled(FindAll(ENFORCER, Flatten(chunks), base), chunks, base);
      FindAllConcat(ENFORCER, chunks[0], rest, base);
      RestUncut(FindAll(ENFORCER, chunks[0], base), FindAll(ENFORCER, rest, next), chunks, base);
      UncutScan(chunks[1..], next);
    }
  }

  lemma ScanNothing(base: nat)
    ensures ScanChunks([], base) == FindAll(ENFORCER, Flatten([]), base)
  {
  }

  lemma UnfoldScan(chunks: seq<string>, base: nat)
    requires chunks != []
    ensures Flatten(chunks) == chunks[0] + Flatten(chunks[1..])
    ensures ScanChunks(chunks, base) == FindAll(ENFORCER, chunks[0], base) + ScanChunks(chunks[1..], base + |chunks[0]|)
  {
  }

  lemma FirstUnstraddled(found: seq<Found>, chunks: seq<string>, base: nat)
    requires chunks != [] && NoneCut(found, chunks, base)
    ensures NoneStraddles(found, base + |chunks[0]|)
  {
    hide NoneStraddles;
    assert CutAt(chunks, base, base + |chunks[0]|);
  }

  lemma RestUncut(left: seq<Found>, right: seq<Found>, chunks: seq<string>, base: nat)
    requires chunks != [] && NoneCut(left + right, chunks, base)
    ensures NoneCut(right, chunks[1..], base + |chunks[0]|)
  {
    hide NoneStraddles;
    forall p | CutAt(chunks[1..], base + |chunks[0]|, p) ensures NoneStraddles(right, p) {
      assert CutAt(chunks, base, p);
      RestUnstraddled(left, right, p);
    }
  }

  /** For any chunking whatever: scanning chunk by chunk finds what one scan of the text finds iff no match is cut. */
  lemma ChunkedScan(chunks: seq<string>, base: nat)
    ensures ScanChunks(chunks, base) == FindAll(ENFORCER, Flatten(chunks), base)
       <==> NoneCut(FindAll(ENFORCER, Flatten(chunks), base), chunks, base)
  {
    hide FindAll, ScanChunks;
    ScannedAreUncut(chunks, base);
    if NoneCut(FindAll(ENFORCER, Flatten(chunks), base), chunks, base) {
      UncutScan(chunks, base);
    }
  }

  // ---------------------------------------------------------------- which texts survive every splitting

  /** No delta ever grows the buffer to the forced-flush cap. */
  predicate NeverCapped(buffer: string, deltas: seq<string>)
    decreases |deltas|
  {
    deltas == [] ||
    (&& (deltas[0] != "" ==> |buffer + deltas[0]| < FORCE_FLUSH_THRESHOLD)
     && NeverCapped(Held(buffer, deltas[0]), deltas[1..]))
  }

  ghost predicate Agrees(deltas: seq<string>) {
    ScanChunks(Chunks("", deltas), 0) == FindAll(ENFORCER, Flatten(deltas), 0)
  }

  predicate InsideMatch(text: string, p: int) {
    !NoneStraddles(FindAll(ENFORCER, text, 0), p)
  }

  /** Whenever the last `[` of the first `k` characters lies inside a citation, it has itself become a complete one. */
  ghost predicate NestedAreComplete(text: string) {
    forall k :: 100 <= k <= |text| ==> NestedIsComplete(text, k)
  }

  predicate NestedIsComplete(text: string, k: nat)
    requires k <= |text|
  {
    var open := LastIndexOf(text, '[', k);
    open < k && InsideMatch(text, open) ==> MatchPrefix(ENFORCER, text[open..k]).Some?
  }

  /** A citation nested in a match cannot be complete before the match is. */
  lemma NestedEndsLater(s: string, k: nat)
    requires MatchPrefix(ENFORCER, s).Some? && 0 < k < MatchPrefix(ENFORCER, s).value.length
    requires MatchPrefix(ENFORCER, s[k..]).Some?
    ensures MatchPrefix(ENFORCER, s).value.length <= k + MatchPrefix(ENFORCER, s[k..]).value.length
  {
    NestedPlaces(s, k);
  }

  lemma NestedPlaces(s: string, k: nat)
    requires Locate(s).Some? && 0 < k <= Locate(s).value.close
    requires Locate(s[k..]).Some?
    ensures Locate(s).value.close <= k + Locate(s[k..]).value.close
  {
    hide IndexOf, SkipSpace;
    var outer, inner := Locate(s).value, Locate(s[k..]).value;
    if k < outer.bracket {
      assert k + inner.bracket == outer.bracket by { IndexOfSlice(s, ']', 1, k + 1, k); }
      SkipSpaceSlice(s, outer.bracket + 2, k);
      IndexOfSlice(s, '"', outer.open + 1, outer.open + 1, k);
    } else {
      assert s[k] == '[' && s[outer.bracket] == ']' && s[outer.bracket + 1] == ':';
      assert outer.open < k by {
        assert outer.open <= k ==> s[outer.open] == '"';
        assert !IsSpace('[');
      }
      assert s[k + inner.open] == '"';
    }
  }

  lemma FoundMatches(text: string, i: nat)
    requires i < |FindAll(ENFORCER, text, 0)|
    ensures var f := FindAll(ENFORCER, text, 0)[i];
      && 0 <= f.lo < f.hi <= |text|
      && MatchPrefix(ENFORCER, text[f.lo..]) == Some(Match(f.cite, f.hi - f.lo))
  {
    hide MatchPrefix;
    FindAllGenuine(ENFORCER, text, 0);
    assert Genuine(ENFORCER, text, 0, FindAll(ENFORCER, text, 0)[i]);
  }

  /** A complete `[` at or after the start of a match ends no earlier than that match does. */
  lemma CompletePastEnd(text: string, lo: nat, open: nat, k: nat)
    requires lo <= open < k <= |text|
    requires MatchPrefix(ENFORCER, text[lo..]).Some?
    requires MatchPrefix(ENFORCER, text[open..k]).Some?
    requires open < lo + MatchPrefix(ENFORCER, text[lo..]).value.length
    ensures lo + MatchPrefix(ENFORCER, text[lo..]).value.length <= k
  {
    hide MatchPrefix;
    assert text[open..] == text[open..k] + text[k..];
    MatchStable(ENFORCER, text[open..k], text[k..]);
    if open > lo {
      assert text[lo..][open - lo..] == text[open..];
      NestedEndsLater(text[lo..], open - lo);
    }
  }

  /** A flush that is not forced never ends inside a match it did not begin inside. */
  lemma FlushCutsNoMatch(text: string, a: nat, k: nat, i: nat)
    requires a + FLUSH_THRESHOLD <= k <= |text| && k - a < FORCE_FLUSH_THRESHOLD
    requires i < |FindAll(ENFORCER, text, 0)| && !Straddles(FindAll(ENFORCER, text, 0)[i], a)
    requires NestedIsComplete(text, k)
    ensures !Straddles(FindAll(ENFORCER, text, 0)[i], a + FlushTo(text[a..k], false))
  {
    hide MatchPrefix, FindAll, LastIndexOf;
    var f, b := FindAll(ENFORCER, text, 0)[i], text[a..k];
    var cut := a + FlushTo(b, false);
    FoundMatches(text, i);
    if Straddles(f, cut) {
      assert b[f.lo - a] == '[';
      var open := a + LastIndexOf(b, '[', |b|);
      LastIndexOfSlice(text, '[', a, k);
      assert b[open - a..] == text[open..k];
      if cut == k {
        CompletePastEnd(text, f.lo, open, k);
      }
    }
  }

  lemma StepCutsNoMatch(text: string, a: nat, buffer: string, delta: string, rest: string, i: nat)
    requires a <= |text| && text[a..] == buffer + delta + rest
    requires i < |FindAll(ENFORCER, text, 0)| && !Straddles(FindAll(ENFORCER, text, 0)[i], a)
    requires delta != "" ==> |buffer + delta| < FORCE_FLUSH_THRESHOLD
    requires NestedAreComplete(text)
    ensures var next := a + |Sent(buffer, delta)|;
      && next <= |text|
      && text[next..] == Held(buffer, delta) + rest
      && !Straddles(FindAll(ENFORCER, text, 0)[i], next)
  {
    hide MatchPrefix, FindAll, FlushTo, NestedIsComplete;
    var sent, held := Sent(buffer, delta), Held(buffer, delta);
    var b := buffer + delta;
    assert b == sent + held;
    assert text[a + |sent|..] == text[a..][|sent|..];
    assert text[a + |sent|..] == held + rest;
    if sent != "" {
      assert text[a..a + |b|] == b;
      FlushCutsNoMatch(text, a, a + |b|, i);
    }
  }

  lemma {:induction false} RunCutsNoMatch(text: string, a: nat, buffer: string, deltas: seq<string>, i: nat, p: int)
    requires a <= |text| && text[a..] == buffer + Flatten(deltas)
    requires i < |FindAll(ENFORCER, text, 0)| && !Straddles(FindAll(ENFORCER, text, 0)[i], a)
    requires NeverCapped(buffer, deltas) && NestedAreComplete(text)
    requires CutAt(Chunks(buffer, deltas), a, p)
    ensures !Straddles(FindAll(ENFORCER, text, 0)[i], p)
    decreases |deltas|
  {
    hide MatchPrefix, FindAll, Sent, Held, NestedAreComplete;
    if deltas == [] {
      FoundMatches(text, i);
    } else {
      var sent, held, rest := Sent(buffer, deltas[0]), Held(buffer, deltas[0]), deltas[1..];
      assert buffer + (deltas[0] + Flatten(rest)) == buffer + deltas[0] + Flatten(rest);
      StepCutsNoMatch(text, a, buffer, deltas[0], Flatten(rest), i);
      CutAtSending(sent, Chunks(held, rest), a, p);
      if p != a + |sent| {
        RunCutsNoMatch(text, a + |sent|, held, rest, i, p);
      }
    }
  }

  lemma CutAtSending(sent: string, rest: seq<string>, base: nat, p: int)
    requires CutAt(Sending(sent) + rest, base, p)
    ensures p == base + |sent| || CutAt(rest, base + |sent|, p)
  {
    if sent == "" {
      assert Sending(sent) + rest == rest;
    } else {
      assert (Sending(sent) + rest)[1..] == rest;
    }
  }

  /**
   * For every splitting into deltas that keeps the buffer under the cap, the citations found chunk by
   * chunk are exactly those found in the whole text, at the same places.
   */
  lemma StreamAgrees(deltas: seq<string>)
    requires NeverCapped("", deltas) && NestedAreComplete(Flatten(deltas))
    ensures Agrees(deltas)
  {
    hide MatchPrefix, FindAll, NestedAreComplete, NeverCapped, Chunks;
    var text, chunks := Flatten(deltas), Chunks("", deltas);
    forall p | CutAt(chunks, 0, p) ensures NoneStraddles(FindAll(ENFORCER, text, 0), p) {
      forall i | 0 <= i < |FindAll(ENFORCER, text, 0)| ensures !Straddles(FindAll(ENFORCER, text, 0)[i], p) {
        assert text[0..] == "" + Flatten(deltas);
        RunCutsNoMatch(text, 0, "", deltas, i, p);
      }
    }
    ChunksConserve("", deltas);
    assert "" + text == text;
    ChunkedScan(chunks, 0);
  }

  ghost predicate SingleBracketed(text: string) {
    forall p :: 0 <= p < |text| && text[p] == '[' ==> !InsideMatch(text, p)
  }

  /** In particular when no citation has a second `[` inside it. */
  lemma SingleBracketedAgrees(deltas: seq<string>)
    requires NeverCapped("", deltas) && SingleBracketed(Flatten(deltas))
    ensures Agrees(deltas)
  {
    hide InsideMatch, MatchPrefix, LastIndexOf, NeverCapped, Agrees;
    StreamAgrees(deltas);
  }

  /** Otherwise some splitting does cut a citation: here is the one. */
  lemma SplitLosesCitation(text: string, k: nat)
    requires FLUSH_THRESHOLD <= k <= |text| && k < FORCE_FLUSH_THRESHOLD && !NestedIsComplete(text, k)
    ensures Flatten([text[..k], text[k..]]) == text && !Agrees([text[..k], text[k..]])
  {
    var open := LastIndexOf(text, '[', k);
    hide MatchPrefix, FindAll, LastIndexOf, Sent, Flatten, Agrees, InsideMatch, Chunks, CutAt;
    var deltas := [text[..k], text[k..]];
    FlattenTwo(text[..k], text[k..]);
    assert text[..k] + text[k..] == text;
    OpenPastStart(text, open);
    SentUpToOpen(text, k);
    FirstCut(deltas);
    CutInsideDisagrees(deltas, open);
  }

  lemma FirstCut(deltas: seq<string>)
    requires deltas != [] && Sent("", deltas[0]) != ""
    ensures CutAt(Chunks("", deltas), 0, |Sent("", deltas[0])|)
  {
    hide Sent, Held;
    assert Chunks("", deltas)[0] == Sent("", deltas[0]);
  }

  lemma CutInsideDisagrees(deltas: seq<string>, p: nat)
    requires InsideMatch(Flatten(deltas), p) && CutAt(Chunks("", deltas), 0, p)
    ensures !Agrees(deltas)
  {
    hide FindAll, CutAt, Chunks, ScanChunks, Flatten;
    ChunksConserve("", deltas);
    assert "" + Flatten(deltas) == Flatten(deltas);
    ChunkedScan(Chunks("", deltas), 0);
  }

  lemma FlattenTwo(a: string, b: string)
    ensures Flatten([a, b]) == a + b
  {
    assert [a, b][1..] == [b] && [b][1..] == [];
    assert Flatten([b]) == b + Flatten([]);
  }

  lemma SentUpToOpen(text: string, k: nat)
    requires FLUSH_THRESHOLD <= k <= |text| && k < FORCE_FLUSH_THRESHOLD
    requires var open := LastIndexOf(text, '[', k); open < k && MatchPrefix(ENFORCER, text[open..k]).None?
    ensures Sent("", text[..k]) == text[..LastIndexOf(text, '[', k)]
  {
    hide MatchPrefix, LastIndexOf;
    var open, b := LastIndexOf(text, '[', k), text[..k];
    LastIndexOfShorter(text, b, '[', k);
    assert b[open..] == text[open..k];
    assert "" + b == b;
    assert FlushTo(b, false) == open;
    assert b[..open] == text[..open];
  }

  lemma OpenPastStart(text: string, open: nat)
    requires InsideMatch(text, open)
    ensures open > 0
  {
    hide FindAll;
    FoundWithin(ENFORCER, text, 0, 0);
  }

  lemma {:induction false} ShortNeverCapped(buffer: string, deltas: seq<string>)
    requires |buffer| + |Flatten(deltas)| < FORCE_FLUSH_THRESHOLD
    ensures NeverCapped(buffer, deltas)
    decreases |deltas|
  {
    hide FlushTo;
    if deltas != [] {
      ShortNeverCapped(Held(buffer, deltas[0]), deltas[1..]);
    }
  }

  /** Exactly which texts shorter than the cap keep all their citations under every splitting into deltas. */
  lemma ShortTextAgreement(text: string)
    requires |text| < 2000
    ensures NestedAreComplete(text) <==> forall deltas :: Flatten(deltas) == text ==> Agrees(deltas)
  {
    hide Agrees, NestedIsComplete, NeverCapped;
    if NestedAreComplete(text) {
      forall deltas | Flatten(deltas) == text ensures Agrees(deltas) {
        ShortNeverCapped("", deltas);
        StreamAgrees(deltas);
      }
    } else {
      var k :| FLUSH_THRESHOLD <= k <= |text| && !NestedIsComplete(text, k);
      SplitLosesCitation(text, k);
    }
  }

  // ---- the citations it can happen to

  lemma {:induction false} SkipPlainText(pad: string, s: string, base: nat)
    requires '[' !in pad
    ensures FindAll(ENFORCER, pad + s, base) == FindAll(ENFORCER, s, base + |pad|)
    decreases |pad|
  {
    hide MatchPrefix;
    if pad == "" {
      assert pad + s == s;
    } else {
      assert (pad + s)[0] == pad[0] && (pad + s)[1..] == pad[1..] + s;
      SkipPlainText(pad[1..], s, base + 1);
    }
  }

  lemma FoundFirst(pad: string, c: Citation, p: int)
    requires '[' !in pad && Printable(c) && |pad| < p < |pad + Print(c)|
    ensures InsideMatch(pad + Print(c), p)
  {
    hide MatchPrefix, Printable;
    SkipPlainText(pad, Print(c), 0);
    PrintParse(c, "");
    assert Print(c) + "" == Print(c);
    var found := FindAll(ENFORCER, Print(c), |pad|);
    assert found[0] == Found(|pad|, |pad| + |Print(c)|, c);
    assert Straddles(found[0], p);
  }

  lemma LastBracket(s: string, k: nat)
    requires k < |s| && s[k] == '['
    ensures LastIndexOf(s, '[', k + 1) == k && MatchPrefix(ENFORCER, s[k..k + 1]).None?
  {
    assert s[k..k + 1] == "[";
    assert Locate("[").None?;
  }

  lemma PrintedQuote(c: Citation, i: nat)
    requires i < |c.quote|
    ensures Print(c)[|Print(c)| - 1 - |c.quote| + i] == c.quote[i]
  {
  }

  /**
   * A quote that contains a `[` is enough: after a hundred characters of plain text, a delta that ends at
   * that bracket makes the flush send the first half of the citation alone.
   */
  lemma BracketedQuoteIsCut(pad: string, c: Citation, i: nat)
    requires '[' !in pad && |pad| >= FLUSH_THRESHOLD && |pad + Print(c)| < FORCE_FLUSH_THRESHOLD
    requires Printable(c) && i < |c.quote| && c.quote[i] == '['
    ensures var text := pad + Print(c); var k := |text| - |c.quote| + i;
      !Agrees([text[..k], text[k..]])
  {
    hide MatchPrefix, Printable, InsideMatch, Agrees, LastIndexOf;
    var text := pad + Print(c);
    var open := |text| - 1 - |c.quote| + i;
    PrintedQuote(c, i);
    assert text[open] == '[';
    LastBracket(text, open);
    FoundFirst(pad, c, open);
    SplitLosesCitation(text, open + 1);
  }

  const RESTATED := Citation("10-K", "Note 5", "revenue [restated] rose")

  lemma RestatedIsPrintable()
    ensures Printable(RESTATED) && |RESTATED.quote| == 23 && RESTATED.quote[8] == '['
  {
  }

  lemma PrintedLength(c: Citation)
    ensures |Print(c)| == |c.doc| + |c.section| + |c.quote| + 8
  {
  }

  /** For instance, one whose quote marks a restated figure. */
  lemma RestatedQuoteIsCut()
    ensures exists deltas :: |Flatten(deltas)| < FORCE_FLUSH_THRESHOLD && !Agrees(deltas)
  {
    hide Agrees, Flatten, Printable, Print;
    var pad := seq(FLUSH_THRESHOLD, _ => '.');
    RestatedIsPrintable();
    PrintedLength(RESTATED);
    BracketedQuoteIsCut(pad, RESTATED, 8);
    var text := pad + Print(RESTATED);
    var k := |text| - 15;
    FlattenTwo(text[..k], text[k..]);
    assert text[..k] + text[k..] == text;
    assert !Agrees([text[..k], text[k..]]);
  }

  // ---------------------------------------------------------------- the citations of the chunk events

  function TrimAll(found: seq<Found>): seq<Citation> {
    seq(|found|, i requires 0 <= i < |found| => Trim(found[i].cite))
  }

  lemma {:induction false} FindAllShift(s: string, base: nat, base': nat)
    ensures TrimAll(FindAll(ENFORCER, s, base)) == TrimAll(FindAll(ENFORCER, s, base'))
    decreases |s|
  {
    hide MatchPrefix, Trim;
    if s != "" {
      var k := match MatchPrefix(ENFORCER, s) case Some(m) => m.length case None => 1;
      FindAllShift(s[k..], base + k, base' + k);
      if MatchPrefix(ENFORCER, s).Some? {
        TrimAllCons(FindAll(ENFORCER, s, base));
        TrimAllCons(FindAll(ENFORCER, s, base'));
      }
    }
  }

  lemma TrimAllCons(found: seq<Found>)
    requires found != []
    ensures TrimAll(found) == [Trim(found[0].cite)] + TrimAll(found[1..])
  {
    hide Trim;
  }

  lemma {:induction false} ScanCitations(chunks: seq<string>, base: nat)
    ensures ChunkCitations(chunks) == TrimAll(ScanChunks(chunks, base))
  {
    hide FindAll, Trim, TrimAll, Citations;
    if chunks == [] {
      assert TrimAll([]) == [] by { TrimNothing(); }
    } else {
      var found := FindAll(ENFORCER, chunks[0], base);
      FindAllShift(chunks[0], 0, base);
      CitationsTrimmed(chunks[0]);
      TrimAllConcat(found, ScanChunks(chunks[1..], base + |chunks[0]|));
      ScanCitations(chunks[1..], base + |chunks[0]|);
    }
  }

  /** The citations of all chunk events concatenated are the trimmed citations of the whole completion. */
  lemma StreamedCitations(deltas: seq<string>)
    requires Agrees(deltas)
    ensures ChunkCitations(Chunks("", deltas)) == Citations(Flatten(deltas))
  {
    hide FindAll, TrimAll, Citations, Chunks, ChunkCitations, ScanChunks;
    ScanCitations(Chunks("", deltas), 0);
    CitationsTrimmed(Flatten(deltas));
  }

  lemma CitationsTrimmed(s: string)
    ensures Citations(s) == TrimAll(FindAll(ENFORCER, s, 0))
  {
    hide FindAll, Trim;
  }

  lemma TrimNothing()
    ensures TrimAll([]) == []
  {
  }

  lemma TrimAllConcat(a: seq<Found>, b: seq<Found>)
    ensures TrimAll(a + b) == TrimAll(a) + TrimAll(b)
  {
    hide Trim;
  }

  // ---------------------------------------------------------------- the published event log

  function ContentOf(e: Event): seq<string> {
    if e.Chunk? then [e.content] else []
  }

  function CarriedBy(e: Event): seq<Citation> {
    if e.Chunk? then e.citations else []
  }

  function Contents(events: seq<Event>): seq<string> {
    if events == [] then [] else ContentOf(events[0]) + Contents(events[1..])
  }

  function Carried(events: seq<Event>): seq<Citation> {
    if events == [] then [] else CarriedBy(events[0]) + Carried(events[1..])
  }

  lemma {:induction false} SkipAnnouncements(cites: seq<Citation>, events: seq<Event>)
    ensures Contents(Announce(cites) + events) == Contents(events)
    ensures Carried(Announce(cites) + events) == Carried(events)
  {
    if cites == [] {
      assert Announce(cites) + events == events;
    } else {
      AnnounceCons(cites[0], cites[1..]);
      assert cites == [cites[0]] + cites[1..];
      assert (Announce(cites) + events)[1..] == Announce(cites[1..]) + events;
      SkipAnnouncements(cites[1..], events);
    }
  }

  lemma UnfoldEvents(chunks: seq<string>, seen: set<Citation>)
    requires chunks != []
    ensures var cites := Citations(chunks[0]);
      Events(chunks, seen)
        == Announce(Fresh(cites, seen)) + ([Chunk(chunks[0], cites)] + Events(chunks[1..], seen + Elements(cites)))
  {
    hide Citations, Fresh, Announce, Elements;
    var cites := Citations(chunks[0]);
    var rest := Events(chunks[1..], seen + Elements(cites));
    assert Events(chunks, seen) == Announce(Fresh(cites, seen)) + [Chunk(chunks[0], cites)] + rest;
  }

  lemma UnfoldChunkCitations(chunks: seq<string>)
    requires chunks != []
    ensures ChunkCitations(chunks) == Citations(chunks[0]) + ChunkCitations(chunks[1..])
  {
    hide Citations;
  }

  lemma ChunkThenRest(content: string, cites: seq<Citation>, rest: seq<Event>)
    ensures Contents([Chunk(content, cites)] + rest) == [content] + Contents(rest)
    ensures Carried([Chunk(content, cites)] + rest) == cites + Carried(rest)
  {
    assert ([Chunk(content, cites)] + rest)[1..] == rest;
  }

  lemma NothingCarried(seen: set<Citation>)
    ensures Events([], seen) == [] && Contents([]) == [] && Carried([]) == [] && ChunkCitations([]) == []
  {
  }

  lemma {:induction false} EventsCarryChunks(chunks: seq<string>, seen: set<Citation>)
    ensures Contents(Events(chunks, seen)) == chunks
    ensures Carried(Events(chunks, seen)) == ChunkCitations(chunks)
  {
    hide *;
    if chunks == [] {
      NothingCarried(seen);
    } else {
      var cites := Citations(chunks[0]);
      var rest := Events(chunks[1..], seen + Elements(cites));
      EventsCarryChunks(chunks[1..], seen + Elements(cites));
      UnfoldEvents(chunks, seen);
      SkipAnnouncements(Fresh(cites, seen), [Chunk(chunks[0], cites)] + rest);
      ChunkThenRest(chunks[0], cites, rest);
      UnfoldChunkCitations(chunks);
      assert chunks == [chunks[0]] + chunks[1..];
    }
  }

  /** Everything a subscriber can rely on, for every way the completion arrives in deltas. */
  lemma PublishedStream(deltas: seq<string>)
    ensures var events := Events(Chunks("", deltas), {});
      && Flatten(Contents(events)) == Flatten(deltas)
      && Announced(events) == FirstOccurrences(Carried(events))
      && (NeverCapped("", deltas) && NestedAreComplete(Flatten(deltas))
          ==> Carried(events) == Citations(Flatten(deltas)))
  {
    hide Chunks, Events, Contents, Carried, Announced, FirstOccurrences, Citations, Flatten, NeverCapped,
        NestedAreComplete;
    ChunksConserve("", deltas);
    assert "" + Flatten(deltas) == Flatten(deltas);
    EventsCarryChunks(Chunks("", deltas), {});
    AnnouncedOnce(deltas);
    if NeverCapped("", deltas) && NestedAreComplete(Flatten(deltas)) {
      StreamAgrees(deltas);
      StreamedCitations(deltas);
    }
  }

  lemma {:induction false} CarriedWasAnnounced(chunks: seq<string>, seen: set<Citation>, i: nat, c: Citation)
    requires i < |Events(chunks, seen)| && c in CarriedBy(Events(chunks, seen)[i])
    ensures c in seen || c in Announced(Events(chunks, seen)[..i])
  {
    hide Citations, Fresh, CarriedBy, Announced;
    var cites := Citations(chunks[0]);
    var first := Announce(Fresh(cites, seen));
    var rest := Events(chunks[1..], seen + Elements(cites));
    var events := first + [Chunk(chunks[0], cites)] + rest;
    assert Events(chunks, seen) == events;
    var n := |first|;
    AnnouncedByAnnounce(Fresh(cites, seen));
    FreshCovers(cites, seen);
    if i < n {
      AnnouncementsCarryNothing(Fresh(cites, seen)[i]);
    } else if i == n {
      assert events[..i] == first;
      ChunkCarries(chunks[0], cites);
    } else {
      CarriedWasAnnounced(chunks[1..], seen + Elements(cites), i - n - 1, c);
      assert events[..i] == first + ([Chunk(chunks[0], cites)] + rest[..i - n - 1]);
      AnnouncedConcat(first, [Chunk(chunks[0], cites)] + rest[..i - n - 1]);
      AnnouncedConcat([Chunk(chunks[0], cites)], rest[..i - n - 1]);
    }
  }

  lemma AnnouncementsCarryNothing(c: Citation)
    ensures CarriedBy(CitationFound(c)) == []
  {
  }

  lemma ChunkCarries(content: string, cites: seq<Citation>)
    ensures CarriedBy(Chunk(content, cites)) == cites
  {
  }

  lemma {:induction false} FreshCovers(cites: seq<Citation>, seen: set<Citation>)
    ensures forall c :: c in cites ==> c in seen || c in Fresh(cites, seen)
  {
    if cites != [] {
      assert cites == [cites[0]] + cites[1..];
      FreshCovers(cites[1..], if cites[0] in seen then seen else seen + {cites[0]});
    }
  }

  /** A citation carried by a chunk has always been announced by the time the chunk is published. */
  lemma AnnouncedBeforeCarried(deltas: seq<string>)
    ensures var events := Events(Chunks("", deltas), {});
      forall i, c :: 0 <= i < |events| && c in CarriedBy(events[i]) ==> c in Announced(events[..i])
  {
    hide *;
    var chunks := Chunks("", deltas);
    var events := Events(chunks, {});
    forall i, c | 0 <= i < |events| && c in CarriedBy(events[i]) ensures c in Announced(events[..i]) {
      CarriedWasAnnounced(chunks, {}, i, c);
    }
  }
}
