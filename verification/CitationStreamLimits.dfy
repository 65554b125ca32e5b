/** Which texts of any length keep their citations under every splitting that stays below the cap. */
module CitationStreamLimits {
  import opened Text
  import opened CitationGrammar
  import opened CitationStream
  import opened CitationStreamProofs

  // ---------------------------------------------------------------- a stream cut in two

  /** The buffer after some deltas. */
  function HeldFrom(buffer: string, deltas: seq<string>): string
    decreases |deltas|
  {
    if deltas == [] then buffer else HeldFrom(Held(buffer, deltas[0]), deltas[1..])
  }

  /** What has been sent by then. */
  function Begun(buffer: string, deltas: seq<string>): seq<string>
    decreases |deltas|
  {
    if deltas == [] then [] else Sending(Sent(buffer, deltas[0])) + Begun(Held(buffer, deltas[0]), deltas[1..])
  }

  lemma {:induction false} StreamConcat(buffer: string, a: seq<string>, b: seq<string>)
    ensures Chunks(buffer, a + b) == Begun(buffer, a) + Chunks(HeldFrom(buffer, a), b)
    ensures NeverCapped(buffer, a + b) == (NeverCapped(buffer, a) && NeverCapped(HeldFrom(buffer, a), b))
    ensures HeldFrom(buffer, a + b) == HeldFrom(HeldFrom(buffer, a), b)
    ensures Begun(buffer, a + b) == Begun(buffer, a) + Begun(HeldFrom(buffer, a), b)
    decreases |a|
  {
    hide Sent, Held, Sending;
    if a == [] {
      assert a + b == b;
    } else {
      assert (a + b)[1..] == a[1..] + b;
      StreamConcat(Held(buffer, a[0]), a[1..], b);
    }
  }

  lemma OneDelta(buffer: string, delta: string)
    ensures HeldFrom(buffer, [delta]) == Held(buffer, delta)
    ensures Begun(buffer, [delta]) == Sending(Sent(buffer, delta))
    ensures |buffer + delta| < FORCE_FLUSH_THRESHOLD ==> NeverCapped(buffer, [delta])
  {
    hide Sent, Held, Sending;
    assert [delta][1..] == [];
    assert Begun(buffer, [delta]) == Sending(Sent(buffer, delta)) + Begun(Held(buffer, delta), []);
  }

  lemma {:induction false} CutAfter(a: seq<string>, b: seq<string>, base: nat, p: int)
    requires CutAt(b, base + |Flatten(a)|, p)
    ensures CutAt(a + b, base, p)
    decreases |a|
  {
    if a == [] {
      assert a + b == b;
    } else {
      assert (a + b)[1..] == a[1..] + b;
      CutAfter(a[1..], b, base + |a[0]|, p);
    }
  }

  // ---------------------------------------------------------------- where a stream stands

  /** After the deltas the stream has received the first `n` characters of the text and sent the first `s`. */
  ghost predicate Stands(text: string, deltas: seq<string>, n: nat, s: nat) {
    && s <= n <= |text|
    && Flatten(deltas) == text[..n]
    && HeldFrom("", deltas) == text[s..n]
    && |Flatten(Begun("", deltas))| == s
    && NeverCapped("", deltas)
    && Waiting(text[s..n])
  }

  lemma StandsAtStart(text: string)
    ensures Stands(text, [], 0, 0)
  {
    EmptyWaits();
    assert text[0..0] == "" && text[..0] == "";
  }

  /** One more delta up to `x`, large enough to be flushed and below the cap. */
  lemma Advance(text: string, deltas: seq<string>, n: nat, s: nat, x: nat)
    requires Stands(text, deltas, n, s) && n < x <= |text|
    requires s + FLUSH_THRESHOLD <= x < s + FORCE_FLUSH_THRESHOLD
    ensures var k := FlushTo(text[s..x], false);
      && Sent(text[s..n], text[n..x]) == text[s..s + k]
      && Stands(text, deltas + [text[n..x]], x, s + k)
  {
    hide *;
    StandingMeans(text, deltas, n, s);
    var delta := text[n..x];
    var k := FlushTo(text[s..x], false);
    OneFlush(text, n, s, x);
    StreamConcat("", deltas, [delta]);
    OneDelta(text[s..n], delta);
    FlattenConcat(deltas, [delta]);
    FlattenOne(delta);
    FlattenConcat(Begun("", deltas), Sending(text[s..s + k]));
    FlattenSending(text[s..s + k]);
    assert text[..n] + delta == text[..x];
    NowStands(text, deltas + [delta], x, s + k);
  }

  // The buffer of one flush, as slices of the text.
  lemma OneFlush(text: string, n: nat, s: nat, x: nat)
    requires s <= n < x <= |text| && Waiting(text[s..n])
    requires s + FLUSH_THRESHOLD <= x < s + FORCE_FLUSH_THRESHOLD
    ensures text[s..n] + text[n..x] == text[s..x]
    ensures var k := FlushTo(text[s..x], false);
      && Sent(text[s..n], text[n..x]) == text[s..s + k]
      && Held(text[s..n], text[n..x]) == text[s + k..x] && Waiting(text[s + k..x])
  {
    hide FlushTo, Waiting;
    var k := FlushTo(text[s..x], false);
    assert text[s..n] + text[n..x] == text[s..x] && text[n..x] != "";
    assert text[s..x][..k] == text[s..s + k];
    assert text[s..x][k..] == text[s + k..x];
    HeldWaits(text[s..n], text[n..x]);
  }

  lemma StandingMeans(text: string, deltas: seq<string>, n: nat, s: nat)
    requires Stands(text, deltas, n, s)
    ensures s <= n <= |text| && Flatten(deltas) == text[..n] && HeldFrom("", deltas) == text[s..n]
    ensures |Flatten(Begun("", deltas))| == s && NeverCapped("", deltas) && Waiting(text[s..n])
  {
  }

  lemma FlattenOne(s: string)
    ensures Flatten([s]) == s
  {
    assert [s][1..] == [];
    assert Flatten([s]) == s + Flatten([]);
  }

  lemma NowStands(text: string, deltas: seq<string>, n: nat, s: nat)
    requires s <= n <= |text| && Flatten(deltas) == text[..n] && HeldFrom("", deltas) == text[s..n]
    requires |Flatten(Begun("", deltas))| == s && NeverCapped("", deltas) && Waiting(text[s..n])
    ensures Stands(text, deltas, n, s)
  {
  }

  // ---------------------------------------------------------------- no bracket waits for long

  // One threshold short of the cap.
  const LONG_HOLD: nat := 1900

  /** Every `[` is followed by another one, or has become a complete citation, within so many characters. */
  ghost predicate NoLongHold(text: string) {
    forall q :: 0 <= q && q + LONG_HOLD <= |text| && text[q] == '[' ==> !HoldsLong(text, q)
  }

  predicate HoldsLong(text: string, q: nat)
    requires q + LONG_HOLD <= |text|
  {
    && (forall j :: q < j < q + LONG_HOLD ==> text[j] != '[')
    && MatchPrefix(ENFORCER, text[q..q + LONG_HOLD]).None?
  }

  lemma LongBufferFlushes(text: string, s: nat)
    requires NoLongHold(text) && s + LONG_HOLD <= |text|
    ensures FlushTo(text[s..s + LONG_HOLD], false) > 0
  {
    hide MatchPrefix, LastIndexOf;
    var b := text[s..s + LONG_HOLD];
    assert text[s] == '[' ==> !HoldsLong(text, s);
    assert forall j :: s < j < s + LONG_HOLD ==> text[j] == b[j - s];
    assert b[0] == text[s] && b[0..] == b;
  }

  /** A stream can be led to stand, uncapped, at a threshold or more before any place past the first hundred. */
  lemma {:induction false} StandBefore(text: string, m: nat) returns (deltas: seq<string>, n: nat, s: nat)
    requires NoLongHold(text) && FLUSH_THRESHOLD <= m <= |text|
    ensures Stands(text, deltas, n, s)
    ensures n < m && n < s + LONG_HOLD
    ensures s + FLUSH_THRESHOLD <= m < s + FORCE_FLUSH_THRESHOLD
    decreases m
  {
    hide NoLongHold, Stands, FlushTo;
    if m == FLUSH_THRESHOLD {
      StandsAtStart(text);
      deltas, n, s := [], 0, 0;
    } else {
      deltas, n, s := StandBefore(text, m - 1);
      if m == s + FORCE_FLUSH_THRESHOLD {
        var x := s + LONG_HOLD;
        LongBufferFlushes(text, s);
        Advance(text, deltas, n, s, x);
        deltas, n, s := deltas + [text[n..x]], x, s + FlushTo(text[s..x], false);
      }
    }
  }

  function Singles(s: string): seq<string> {
    seq(|s|, i requires 0 <= i < |s| => [s[i]])
  }

  lemma {:induction false} FlattenSingles(s: string)
    ensures Flatten(Singles(s)) == s
  {
    if s != "" {
      assert Singles(s)[1..] == Singles(s[1..]);
      FlattenSingles(s[1..]);
    }
  }

  lemma WaitsBelowCap(text: string, n: nat, s: nat)
    requires NoLongHold(text) && s <= n <= |text| && Waiting(text[s..n])
    ensures n - s < FORCE_FLUSH_THRESHOLD - 1
  {
    hide MatchPrefix;
    if n - s >= LONG_HOLD {
      var b := text[s..n];
      assert text[s] == '[' ==> !HoldsLong(text, s);
      assert b[0] == text[s];
      assert forall j :: s < j < s + LONG_HOLD ==> text[j] == b[j - s];
      var early := text[s..s + LONG_HOLD];
      assert b == early + text[s + LONG_HOLD..n];
      if MatchPrefix(ENFORCER, early).Some? {
        MatchStable(ENFORCER, early, text[s + LONG_HOLD..n]);
      }
    }
  }

  /** Delivered character by character, the rest of the text never reaches the cap. */
  lemma {:induction false} SinglesUncapped(text: string, n: nat, s: nat)
    requires NoLongHold(text) && s <= n <= |text| && Waiting(text[s..n])
    ensures NeverCapped(text[s..n], Singles(text[n..]))
    decreases |text| - n
  {
    hide NoLongHold, Waiting, Sent;
    if n < |text| {
      var buffer, delta := text[s..n], [text[n]];
      WaitsBelowCap(text, n, s);
      assert buffer + delta == text[s..n + 1];
      HeldWaits(buffer, delta);
      var k := |Sent(buffer, delta)|;
      assert Held(buffer, delta) == text[s + k..n + 1];
      SinglesUncapped(text, n + 1, s + k);
      assert Singles(text[n..])[0] == delta;
      assert Singles(text[n..])[1..] == Singles(text[n + 1..]);
    }
  }

  // ---------------------------------------------------------------- the exact condition

  /** The first place past the threshold at which the bracket that is last before `k` is last. */
  lemma BracketStillLast(text: string, k: nat, k0: nat)
    requires k <= |text| && LastIndexOf(text, '[', k) < k0 <= k
    requires !NestedIsComplete(text, k)
    ensures var open := LastIndexOf(text, '[', k);
      && LastIndexOf(text, '[', k0) == open && text[open] == '['
      && InsideMatch(text, open) && MatchPrefix(ENFORCER, text[open..k0]).None?
  {
    hide MatchPrefix, InsideMatch, LastIndexOf;
    var open := LastIndexOf(text, '[', k);
    if MatchPrefix(ENFORCER, text[open..k0]).Some? {
      assert text[open..k] == text[open..k0] + text[k0..k];
      MatchStable(ENFORCER, text[open..k0], text[k0..k]);
    }
  }

  lemma FlushToBracket(text: string, s: nat, open: nat, k0: nat)
    requires s <= open < k0 <= |text| && k0 - s < FORCE_FLUSH_THRESHOLD
    requires LastIndexOf(text, '[', k0) == open && MatchPrefix(ENFORCER, text[open..k0]).None?
    ensures FlushTo(text[s..k0], false) == open - s
  {
    hide MatchPrefix, LastIndexOf;
    LastIndexOfSlice(text, '[', s, k0);
    assert text[s..k0][open - s..] == text[open..k0];
  }

  /** A bracket inside a citation that is last and incomplete at some place can be cut off by an uncapped stream. */
  lemma UncappedStreamCuts(text: string, k: nat) returns (deltas: seq<string>)
    requires NoLongHold(text) && FLUSH_THRESHOLD <= k <= |text| && !NestedIsComplete(text, k)
    ensures Flatten(deltas) == text && NeverCapped("", deltas) && !Agrees(deltas)
  {
    hide MatchPrefix, LastIndexOf, NoLongHold, FlushTo, InsideMatch, Stands, Agrees;
    var open := LastIndexOf(text, '[', k);
    var k0 := Max(FLUSH_THRESHOLD, open + 1);
    BracketStillLast(text, k, k0);
    OpenPastStart(text, open);
    var early, n, s := StandBefore(text, k0);
    FlushToBracket(text, s, open, k0);
    Advance(text, early, n, s, k0);
    deltas := early + [text[n..k0]] + Singles(text[k0..]);
    CutStandsIn(text, early, n, s, open, k0);
    CutInsideDisagrees(deltas, open);
  }

  lemma CutStandsIn(text: string, early: seq<string>, n: nat, s: nat, open: nat, k0: nat)
    requires NoLongHold(text) && s < open < k0 <= |text| && n < k0
    requires Stands(text, early, n, s) && Stands(text, early + [text[n..k0]], k0, open)
    requires Sent(text[s..n], text[n..k0]) == text[s..open]
    ensures var deltas := early + [text[n..k0]] + Singles(text[k0..]);
      Flatten(deltas) == text && NeverCapped("", deltas) && CutAt(Chunks("", deltas), 0, open)
  {
    hide *;
    var delta := text[n..k0];
    var later := Singles(text[k0..]);
    StandingMeans(text, early, n, s);
    StandingMeans(text, early + [delta], k0, open);
    StreamConcat("", early + [delta], later);
    SinglesUncapped(text, k0, open);
    FlattenSingles(text[k0..]);
    FlattenConcat(early + [delta], later);
    assert text[..k0] + text[k0..] == text;
    StreamConcat("", early, [delta]);
    OneDelta(text[s..n], delta);
    SendingSome(text[s..open]);
    CutAtEnd(Begun("", early), text[s..open], Chunks(text[open..k0], later));
  }

  lemma SendingSome(content: string)
    requires content != ""
    ensures Sending(content) == [content]
  {
  }

  lemma CutAtEnd(early: seq<string>, sent: string, later: seq<string>)
    ensures CutAt(early + [sent] + later, 0, |Flatten(early)| + |sent|)
  {
    hide CutAt, Flatten;
    assert early + [sent] + later == early + ([sent] + later);
    CutFirst(sent, later, |Flatten(early)|);
    CutAfter(early, [sent] + later, 0, |Flatten(early)| + |sent|);
  }

  lemma CutFirst(sent: string, later: seq<string>, base: nat)
    ensures CutAt([sent] + later, base, base + |sent|)
  {
  }

  /**
   * Exactly which texts, of any length, keep all their citations under every splitting into deltas that stays
   * below the cap: those in which a `[` inside a citation that is last at some place is complete there.
   */
  lemma UncappedAgreement(text: string)
    requires NoLongHold(text)
    ensures NestedAreComplete(text)
       <==> forall deltas :: Flatten(deltas) == text && NeverCapped("", deltas) ==> Agrees(deltas)
  {
    hide Agrees, NestedIsComplete, NeverCapped, NoLongHold, Flatten;
    if NestedAreComplete(text) {
      forall deltas | Flatten(deltas) == text && NeverCapped("", deltas) ensures Agrees(deltas) {
        StreamAgrees(deltas);
      }
    } else {
      var k :| FLUSH_THRESHOLD <= k <= |text| && !NestedIsComplete(text, k);
      var _ := UncappedStreamCuts(text, k);
    }
  }

  // ---------------------------------------------------------------- every text, every splitting

  /** What has to hold where a delta may end: below the cap as before, from the cap on no citation lies across. */
  predicate SafeAt(text: string, k: nat)
    requires k <= |text|
  {
    if k < 2000 then NestedIsComplete(text, k) else NoneStraddles(FindAll(ENFORCER, text, 0), k)
  }

  ghost predicate SafeEverywhere(text: string) {
    forall k :: 100 <= k <= |text| ==> SafeAt(text, k)
  }

  lemma EndsInQuoteMark(s: string)
    requires MatchPrefix(ENFORCER, s).Some?
    ensures s[MatchPrefix(ENFORCER, s).value.length - 1] == '"'
  {
    hide SplitPoint, SectionPart, SkipSpace;
  }

  /** A bracket inside a citation is not its last character, so the next place is inside it too. */
  lemma InsideGoesOn(text: string, open: nat)
    requires open < |text| && text[open] == '[' && InsideMatch(text, open)
    ensures InsideMatch(text, open + 1)
  {
    hide MatchPrefix, FindAll;
    var found := FindAll(ENFORCER, text, 0);
    var i: nat :| i < |found| && Straddles(found[i], open);
    FoundMatches(text, i);
    EndsInQuoteMark(text[found[i].lo..]);
    assert text[found[i].lo..][found[i].hi - 1 - found[i].lo] == text[found[i].hi - 1];
    assert Straddles(found[i], open + 1);
  }

  /** So the condition from the cap on takes care of the nested brackets as well. */
  lemma SafeIsNested(text: string, k: nat)
    requires SafeEverywhere(text) && FLUSH_THRESHOLD <= k <= |text|
    ensures NestedIsComplete(text, k)
  {
    hide MatchPrefix, InsideMatch, LastIndexOf, FindAll, NoneStraddles;
    if !NestedIsComplete(text, k) {
      var open := LastIndexOf(text, '[', k);
      var k0 := Max(FLUSH_THRESHOLD, open + 1);
      BracketStillLast(text, k, k0);
      SafeMeans(text, k0);
      if k0 >= FORCE_FLUSH_THRESHOLD {
        InsideGoesOn(text, open);
        InsideMeans(text, k0);
      }
    }
  }

  lemma SafeMeans(text: string, k: nat)
    requires SafeEverywhere(text) && FLUSH_THRESHOLD <= k <= |text|
    ensures k < FORCE_FLUSH_THRESHOLD ==> NestedIsComplete(text, k)
    ensures k >= FORCE_FLUSH_THRESHOLD ==> NoneStraddles(FindAll(ENFORCER, text, 0), k)
  {
    hide NestedIsComplete, NoneStraddles, FindAll;
    assert SafeAt(text, k);
  }

  lemma InsideMeans(text: string, p: int)
    ensures InsideMatch(text, p) == !NoneStraddles(FindAll(ENFORCER, text, 0), p)
  {
    hide NoneStraddles, FindAll;
  }

  lemma StraddlesOne(found: seq<Found>, i: nat, p: int)
    requires i < |found| && NoneStraddles(found, p)
    ensures !Straddles(found[i], p)
  {
    hide Straddles;
  }

  lemma SafeFlushCutsNoMatch(text: string, a: nat, k: nat, i: nat)
    requires a + FLUSH_THRESHOLD <= k <= |text| && SafeEverywhere(text)
    requires i < |FindAll(ENFORCER, text, 0)| && !Straddles(FindAll(ENFORCER, text, 0)[i], a)
    ensures !Straddles(FindAll(ENFORCER, text, 0)[i], a + FlushTo(text[a..k], false))
  {
    hide MatchPrefix, FindAll, LastIndexOf, SafeEverywhere, NestedIsComplete, Straddles, NoneStraddles;
    if k - a < FORCE_FLUSH_THRESHOLD {
      SafeIsNested(text, k);
      FlushCutsNoMatch(text, a, k, i);
    } else {
      SafeMeans(text, k);
      StraddlesOne(FindAll(ENFORCER, text, 0), i, k);
    }
  }

  lemma SafeStepCutsNoMatch(text: string, a: nat, buffer: string, delta: string, rest: string, i: nat)
    requires a <= |text| && text[a..] == buffer + delta + rest && SafeEverywhere(text)
    requires i < |FindAll(ENFORCER, text, 0)| && !Straddles(FindAll(ENFORCER, text, 0)[i], a)
    ensures var next := a + |Sent(buffer, delta)|;
      && next <= |text|
      && text[next..] == Held(buffer, delta) + rest
      && !Straddles(FindAll(ENFORCER, text, 0)[i], next)
  {
    hide MatchPrefix, FindAll, FlushTo, SafeEverywhere, Straddles;
    var sent, held := Sent(buffer, delta), Held(buffer, delta);
    var b := buffer + delta;
    assert b == sent + held;
    assert text[a + |sent|..] == text[a..][|sent|..];
    assert text[a + |sent|..] == held + rest;
    if sent != "" {
      assert text[a..a + |b|] == b;
      SafeFlushCutsNoMatch(text, a, a + |b|, i);
    }
  }

  lemma {:induction false} SafeRunCutsNoMatch(text: string, a: nat, buffer: string, deltas: seq<string>, i: nat, p: int)
    requires a <= |text| && text[a..] == buffer + Flatten(deltas) && SafeEverywhere(text)
    requires i < |FindAll(ENFORCER, text, 0)| && !Straddles(FindAll(ENFORCER, text, 0)[i], a)
    requires CutAt(Chunks(buffer, deltas), a, p)
    ensures !Straddles(FindAll(ENFORCER, text, 0)[i], p)
    decreases |deltas|
  {
    hide MatchPrefix, FindAll, Sent, Held, SafeEverywhere;
    if deltas == [] {
      FoundMatches(text, i);
    } else {
      var sent, held, rest := Sent(buffer, deltas[0]), Held(buffer, deltas[0]), deltas[1..];
      assert buffer + (deltas[0] + Flatten(rest)) == buffer + deltas[0] + Flatten(rest);
      SafeStepCutsNoMatch(text, a, buffer, deltas[0], Flatten(rest), i);
      CutAtSending(sent, Chunks(held, rest), a, p);
      if p != a + |sent| {
        SafeRunCutsNoMatch(text, a + |sent|, held, rest, i, p);
      }
    }
  }

  lemma SafeAgrees(deltas: seq<string>)
    requires SafeEverywhere(Flatten(deltas))
    ensures Agrees(deltas)
  {
    hide MatchPrefix, FindAll, SafeEverywhere, Chunks;
    var text, chunks := Flatten(deltas), Chunks("", deltas);
    forall p | CutAt(chunks, 0, p) ensures NoneStraddles(FindAll(ENFORCER, text, 0), p) {
      forall i | 0 <= i < |FindAll(ENFORCER, text, 0)| ensures !Straddles(FindAll(ENFORCER, text, 0)[i], p) {
        assert text[0..] == "" + Flatten(deltas);
        SafeRunCutsNoMatch(text, 0, "", deltas, i, p);
      }
    }
    ChunksConserve("", deltas);
    assert "" + text == text;
    ChunkedScan(chunks, 0);
  }

  lemma WholeDeltaSent(text: string, k: nat)
    requires FORCE_FLUSH_THRESHOLD <= k <= |text|
    ensures Sent("", text[..k]) == text[..k] && text[..k] != ""
  {
    hide MatchPrefix, LastIndexOf;
    assert "" + text[..k] == text[..k];
    assert text[..k][..k] == text[..k];
  }

  /** A delta as long as the cap goes out whole, through any citation it ends in. */
  lemma LongDeltaCuts(text: string, k: nat)
    requires FORCE_FLUSH_THRESHOLD <= k <= |text| && !NoneStraddles(FindAll(ENFORCER, text, 0), k)
    ensures Flatten([text[..k], text[k..]]) == text && !Agrees([text[..k], text[k..]])
  {
    hide *;
    var deltas := [text[..k], text[k..]];
    FlattenTwo(text[..k], text[k..]);
    assert text[..k] + text[k..] == text;
    WholeDeltaSent(text, k);
    FirstCut(deltas);
    InsideMeans(text, k);
    CutInsideDisagrees(deltas, k);
  }

  lemma UnsafeIsCut(text: string, k: nat) returns (deltas: seq<string>)
    requires FLUSH_THRESHOLD <= k <= |text| && !SafeAt(text, k)
    ensures Flatten(deltas) == text && !Agrees(deltas)
  {
    hide NestedIsComplete, NoneStraddles, FindAll, Flatten, Agrees;
    deltas := [text[..k], text[k..]];
    if k < FORCE_FLUSH_THRESHOLD {
      SplitLosesCitation(text, k);
    } else {
      LongDeltaCuts(text, k);
    }
  }

  /**
   * Exactly which texts keep all their citations under every splitting into deltas, with no condition on either:
   * before the cap a last `[` inside a citation has to be complete, and from the cap on no place may lie inside
   * a citation.
   */
  lemma AnyTextAgreement(text: string)
    ensures SafeEverywhere(text) <==> forall deltas :: Flatten(deltas) == text ==> Agrees(deltas)
  {
    hide Agrees, SafeAt, Flatten;
    if SafeEverywhere(text) {
      forall deltas | Flatten(deltas) == text ensures Agrees(deltas) {
        SafeAgrees(deltas);
      }
    } else {
      var k :| FLUSH_THRESHOLD <= k <= |text| && !SafeAt(text, k);
      var _ := UnsafeIsCut(text, k);
    }
  }
}
