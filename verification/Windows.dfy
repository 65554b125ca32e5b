/** Greedy token windows over a list of pieces: parent groups, and overlapping child windows. */
module Windows {
  import opened Text
  import opened Splitting

  function Sum(tok: seq<nat>, a: nat, b: nat): nat
    requires a <= b <= |tok|
    decreases b
  {
    if a == b then 0 else Sum(tok, a, b - 1) + tok[b - 1]
  }

  /** The greedy end: the window takes its first piece whatever its size, then whatever still fits. */
  function WindowEnd(tok: seq<nat>, a: nat, b: nat, budget: nat): (e: nat)
    requires a < b <= |tok|
    ensures b <= e <= |tok|
    decreases |tok| - b
  {
    if b == |tok| || Sum(tok, a, b) + tok[b] > budget then b else WindowEnd(tok, a, b + 1, budget)
  }

  /** Where the next window starts: step back from the end `e` over pieces worth `overlap` tokens. */
  function NextStart(tok: seq<nat>, a: nat, j: nat, e: nat, overlap: nat): (s: nat)
    requires a < j <= e <= |tok|
    ensures a < s <= j
  {
    if j == a + 1 || Sum(tok, j, e) >= overlap then j else NextStart(tok, a, j - 1, e, overlap)
  }

  /** The windows from piece `a` on. Parents are the windows without overlap. */
  function WindowsFrom(tok: seq<nat>, a: nat, budget: nat, overlap: nat): (ws: seq<Span>)
    requires a < |tok|
    ensures ws != [] && ws[0].lo == a
    decreases |tok| - a
  {
    var e := WindowEnd(tok, a, a + 1, budget);
    [Span(a, e)] + if e == |tok| then [] else WindowsFrom(tok, NextStart(tok, a, e, e, overlap), budget, overlap)
  }

  // ---------------------------------------------------------------- sums

  lemma {:induction false} SumSplit(tok: seq<nat>, a: nat, b: nat, c: nat)
    requires a <= b <= c <= |tok|
    ensures Sum(tok, a, c) == Sum(tok, a, b) + Sum(tok, b, c)
    decreases c
  {
    if b < c {
      SumSplit(tok, a, b, c - 1);
    }
  }

  // ---------------------------------------------------------------- one window

  predicate Fits(tok: seq<nat>, a: nat, e: nat, budget: nat)
    requires a < e <= |tok|
  {
    e == a + 1 || Sum(tok, a, e) <= budget
  }

  /** A window may hold exactly the pieces up to some end not past the greedy one. */
  lemma {:induction false} WindowEndExact(tok: seq<nat>, a: nat, b: nat, budget: nat, e: nat)
    requires a < b <= e <= |tok| && Fits(tok, a, b, budget)
    ensures Fits(tok, a, e, budget) <==> e <= WindowEnd(tok, a, b, budget)
    decreases |tok| - b
  {
    if b < |tok| {
      if Sum(tok, a, b) + tok[b] > budget {
        if b < e {
          SumSplit(tok, a, b + 1, e);
        }
      } else if b < e {
        WindowEndExact(tok, a, b + 1, budget, e);
      }
    }
  }

  /** The overlap is the shortest suffix worth `overlap` tokens, short of the window's first piece. */
  lemma {:induction false} NextStartExact(tok: seq<nat>, a: nat, j: nat, e: nat, overlap: nat)
    requires a < j <= e <= |tok|
    requires forall i :: j < i <= e ==> Sum(tok, i, e) < overlap
    ensures var s := NextStart(tok, a, j, e, overlap);
      && (s == a + 1 || Sum(tok, s, e) >= overlap)
      && forall i :: s < i <= e ==> Sum(tok, i, e) < overlap
  {
    if j != a + 1 && Sum(tok, j, e) < overlap {
      NextStartExact(tok, a, j - 1, e, overlap);
    }
  }

  /** A window that starts later never ends earlier. */
  lemma LaterEndsNoEarlier(tok: seq<nat>, a: nat, s: nat, budget: nat)
    requires a < s < |tok| && s <= WindowEnd(tok, a, a + 1, budget)
    ensures WindowEnd(tok, a, a + 1, budget) <= WindowEnd(tok, s, s + 1, budget)
  {
    hide WindowEnd;
    var e := WindowEnd(tok, a, a + 1, budget);
    if s < e {
      WindowEndExact(tok, a, a + 1, budget, e);
      SumSplit(tok, a, s, e);
      WindowEndExact(tok, s, s + 1, budget, e);
    }
  }

  // ---------------------------------------------------------------- the whole run of windows

  predicate Successive(tok: seq<nat>, w: Span, next: Span, overlap: nat) {
    && w.lo < next.lo <= w.hi <= next.hi
    && w.hi <= |tok|
    && (next.lo == w.lo + 1 || Sum(tok, next.lo, w.hi) >= overlap)
    && (forall i :: next.lo < i <= w.hi ==> Sum(tok, i, w.hi) < overlap)
  }

  /** Starts strictly advance, ends never retreat, nothing is skipped, and each overlap is the shortest that will do. */
  predicate Progress(tok: seq<nat>, ws: seq<Span>, overlap: nat) {
    && ws != []
    && ws[|ws| - 1].hi == |tok|
    && forall i :: 0 <= i < |ws| - 1 ==> Successive(tok, ws[i], ws[i + 1], overlap)
  }

  predicate Greedy(tok: seq<nat>, w: Span, budget: nat) {
    && w.lo < w.hi <= |tok|
    && forall e :: w.lo < e <= |tok| ==> (Fits(tok, w.lo, e, budget) <==> e <= w.hi)
  }

  lemma {:induction false} WindowsProgress(tok: seq<nat>, a: nat, budget: nat, overlap: nat)
    requires a < |tok|
    ensures Progress(tok, WindowsFrom(tok, a, budget, overlap), overlap)
    ensures |WindowsFrom(tok, a, budget, overlap)| <= |tok| - a
    decreases |tok| - a
  {
    hide WindowEnd, NextStart, Sum;
    var e := WindowEnd(tok, a, a + 1, budget);
    if e < |tok| {
      var s := NextStart(tok, a, e, e, overlap);
      NextStartExact(tok, a, e, e, overlap);
      LaterEndsNoEarlier(tok, a, s, budget);
      WindowsProgress(tok, s, budget, overlap);
      var rest := WindowsFrom(tok, s, budget, overlap);
      FirstWindow(tok, s, budget, overlap);
      PrependProgress(tok, Span(a, e), rest, overlap);
    }
  }

  lemma FirstWindow(tok: seq<nat>, a: nat, budget: nat, overlap: nat)
    requires a < |tok|
    ensures WindowsFrom(tok, a, budget, overlap)[0] == Span(a, WindowEnd(tok, a, a + 1, budget))
  {
    hide WindowEnd, NextStart;
  }

  lemma PrependProgress(tok: seq<nat>, w: Span, rest: seq<Span>, overlap: nat)
    requires Progress(tok, rest, overlap) && Successive(tok, w, rest[0], overlap)
    ensures Progress(tok, [w] + rest, overlap)
  {
    hide Successive;
    var ws := [w] + rest;
    forall i | 0 <= i < |ws| - 1 ensures Successive(tok, ws[i], ws[i + 1], overlap) {
      if i > 0 {
        assert ws[i] == rest[i - 1] && ws[i + 1] == rest[i];
      }
    }
  }

  lemma {:induction false} WindowsGreedy(tok: seq<nat>, a: nat, budget: nat, overlap: nat)
    requires a < |tok|
    ensures forall w :: w in WindowsFrom(tok, a, budget, overlap) ==> Greedy(tok, w, budget)
    decreases |tok| - a
  {
    hide WindowEnd, NextStart, Fits;
    var e := WindowEnd(tok, a, a + 1, budget);
    forall k | a < k <= |tok| ensures Fits(tok, a, k, budget) <==> k <= e {
      assert Fits(tok, a, a + 1, budget) by { SingleFits(tok, a, budget); }
      WindowEndExact(tok, a, a + 1, budget, k);
    }
    assert Greedy(tok, Span(a, e), budget);
    if e < |tok| {
      WindowsGreedy(tok, NextStart(tok, a, e, e, overlap), budget, overlap);
    }
  }

  lemma SingleFits(tok: seq<nat>, a: nat, budget: nat)
    requires a < |tok|
    ensures Fits(tok, a, a + 1, budget)
  {
  }

  // ---------------------------------------------------------------- what the windows cover

  // The windows follow each other over `items` without a gap, up to its end.
  predicate Covers(n: nat, covered: nat, ws: seq<Span>)
    decreases |ws|
  {
    if ws == [] then covered == n
    else ws[0].lo <= covered <= ws[0].hi <= n && Covers(n, ws[0].hi, ws[1..])
  }

  /** What each window adds: its pieces without those shared with the window before it. */
  function FreshParts<T>(items: seq<T>, covered: nat, ws: seq<Span>): seq<seq<T>>
    requires Covers(|items|, covered, ws)
    decreases |ws|
  {
    if ws == [] then [] else
    [items[ws[0].lo..ws[0].hi][covered - ws[0].lo..]] + FreshParts(items, ws[0].hi, ws[1..])
  }

  lemma {:induction false} WindowsCover(tok: seq<nat>, a: nat, budget: nat, overlap: nat, covered: nat)
    requires a <= covered <= |tok| && a < |tok|
    requires covered <= WindowEnd(tok, a, a + 1, budget)
    ensures Covers(|tok|, covered, WindowsFrom(tok, a, budget, overlap))
    decreases |tok| - a
  {
    hide WindowEnd, NextStart;
    var e := WindowEnd(tok, a, a + 1, budget);
    if e < |tok| {
      var s := NextStart(tok, a, e, e, overlap);
      LaterEndsNoEarlier(tok, a, s, budget);
      WindowsCover(tok, s, budget, overlap, e);
      assert ([Span(a, e)] + WindowsFrom(tok, s, budget, overlap))[1..] == WindowsFrom(tok, s, budget, overlap);
    }
  }

  /** Dropping from each window what it shares with its predecessor leaves every piece exactly once, in order. */
  lemma {:induction false} FreshPartsAreAll<T>(items: seq<T>, covered: nat, ws: seq<Span>)
    requires Covers(|items|, covered, ws) && covered <= |items|
    ensures Flatten(FreshParts(items, covered, ws)) == items[covered..]
    decreases |ws|
  {
    if ws != [] {
      var w := ws[0];
      FreshPartsAreAll(items, w.hi, ws[1..]);
      assert items[w.lo..w.hi][covered - w.lo..] == items[covered..w.hi];
      assert items[covered..] == items[covered..w.hi] + items[w.hi..];
    }
  }

  // ---------------------------------------------------------------- groups without overlap

  /** Parent groups partition the pieces. */
  function Groups(tok: seq<nat>, a: nat, budget: nat): seq<Span>
    requires a <= |tok|
    decreases |tok| - a
  {
    if a == |tok| then [] else
    var e := WindowEnd(tok, a, a + 1, budget);
    [Span(a, e)] + Groups(tok, e, budget)
  }

  predicate Partition(n: nat, a: nat, gs: seq<Span>)
    decreases |gs|
  {
    if gs == [] then a == n else gs[0].lo == a && a < gs[0].hi <= n && Partition(n, gs[0].hi, gs[1..])
  }

  lemma {:induction false} GroupsPartition(tok: seq<nat>, a: nat, budget: nat)
    requires a <= |tok|
    ensures Partition(|tok|, a, Groups(tok, a, budget))
    decreases |tok| - a
  {
    hide WindowEnd;
    if a < |tok| {
      var e := WindowEnd(tok, a, a + 1, budget);
      GroupsPartition(tok, e, budget);
      assert ([Span(a, e)] + Groups(tok, e, budget))[1..] == Groups(tok, e, budget);
    }
  }

  lemma {:induction false} GroupsGreedy(tok: seq<nat>, a: nat, budget: nat)
    requires a <= |tok|
    ensures forall g :: g in Groups(tok, a, budget) ==> Greedy(tok, g, budget)
    decreases |tok| - a
  {
    hide WindowEnd, Fits;
    if a < |tok| {
      var e := WindowEnd(tok, a, a + 1, budget);
      forall k | a < k <= |tok| ensures Fits(tok, a, k, budget) <==> k <= e {
        SingleFits(tok, a, budget);
        WindowEndExact(tok, a, a + 1, budget, k);
      }
      assert Greedy(tok, Span(a, e), budget);
      GroupsGreedy(tok, e, budget);
    }
  }
}
