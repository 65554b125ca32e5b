/** Choosing among overlapping value matches found in filing text. */
module ValueSelection {
  import opened StableSort

  // A match of one of the scan patterns; the patterns never match the empty string.
  datatype Match = Match(lo: nat, hi: nat)

  predicate NonEmpty(matches: seq<Match>) {
    forall i :: 0 <= i < |matches| ==> matches[i].lo < matches[i].hi
  }

  predicate Overlaps(a: Match, b: Match) {
    a.lo < b.hi && b.lo < a.hi
  }

  // `key=lambda t: (t[0], -(t[1] - t[0]))`
  predicate StartsBefore(a: Match, b: Match) {
    a.lo < b.lo || (a.lo == b.lo && a.hi - a.lo >= b.hi - b.lo)
  }

  function Candidates(matches: seq<Match>): (r: seq<Match>)
    ensures |r| == |matches|
  {
    Sorted(StartsBefore, matches)
  }

  /** Earlier matches first, and of those that start together the longest. */
  predicate InOrder(ms: seq<Match>) {
    forall i, j :: 0 <= i < j < |ms| ==> StartsBefore(ms[i], ms[j])
  }

  lemma CandidatesInOrder(matches: seq<Match>)
    ensures InOrder(Candidates(matches))
    ensures forall m :: m in Candidates(matches) <==> m in matches
  {
    hide Order;
    OrderIsStable(StartsBefore, matches, 0);
    var order, r := Order(StartsBefore, matches, 0), Candidates(matches);
    assert forall a :: 0 <= a < |order| ==> r[a] == matches[order[a]];
    forall m | m in matches ensures m in r {
      var k: nat :| k < |matches| && matches[k] == m;
      assert k in order;
      var a :| 0 <= a < |order| && order[a] == k;
      assert r[a] == m;
    }
    forall i, j | 0 <= i < j < |r| ensures StartsBefore(r[i], r[j]) {
      assert Precedes(StartsBefore, matches, order[i], order[j]);
    }
  }

  // ---------------------------------------------------------------- the selection

  /** The matches kept are disjoint, one after the other. */
  predicate Disjoint(kept: seq<Match>) {
    forall i, j :: 0 <= i < j < |kept| ==> kept[i].hi <= kept[j].lo
  }

  // The match itself, or one with a character in common that starts earlier, or starts there and ends no earlier.
  predicate Covers(k: Match, m: Match) {
    || k == m
    || (m.lo < k.hi && k.lo < m.hi && (k.lo < m.lo || (k.lo == m.lo && m.hi <= k.hi)))
  }

  predicate Covered(kept: seq<Match>, m: Match) {
    exists i :: 0 <= i < |kept| && Covers(kept[i], m)
  }

  /**
   * What is kept of a list of matches: some of them, disjoint and in order, such that every match left out
   * overlaps a kept one that starts before it, or starts with it and is at least as long.
   */
  ghost predicate Selection(matches: seq<Match>, kept: seq<Match>) {
    && (forall m :: m in kept ==> m in matches)
    && Disjoint(kept)
    && forall m :: m in matches ==> Covered(kept, m)
  }

  predicate OverlapsAny(m: Match, kept: seq<Match>) {
    exists i :: 0 <= i < |kept| && Overlaps(m, kept[i])
  }

  /** Checking a match against everything kept comes to checking it against the last one kept. */
  lemma OnlyTheLastMatters(kept: seq<Match>, m: Match)
    requires NonEmpty(kept) && Disjoint(kept) && kept != []
    requires m.lo < m.hi && forall i :: 0 <= i < |kept| ==> kept[i].lo <= m.lo
    ensures OverlapsAny(m, kept) <==> m.lo < kept[|kept| - 1].hi
  {
    var last := kept[|kept| - 1];
    if m.lo < last.hi {
      assert Overlaps(m, last);
    }
  }

  method SelectMatches(matches: seq<Match>) returns (kept: seq<Match>)
    requires NonEmpty(matches)
    ensures Selection(matches, kept)
  {
    hide StartsBefore, Disjoint, Covered, OverlapsAny, Candidates;
    CandidatesInOrder(matches);
    var candidates := Candidates(matches);
    CandidatesProper(matches);
    kept := [];
    NothingKept();
    for i := 0 to |candidates|
      invariant KeptSoFar(candidates, i, kept)
    {
      ConsiderMatch(candidates, i, kept);
      if !OverlapsAny(candidates[i], kept) {
        kept := kept + [candidates[i]];
      }
    }
    SelectionComplete(matches, candidates, kept);
  }

  ghost predicate KeptSoFar(candidates: seq<Match>, n: nat, kept: seq<Match>)
    requires n <= |candidates|
  {
    && (forall m :: m in kept ==> m in candidates[..n])
    && Disjoint(kept)
    && forall i :: 0 <= i < n ==> Covered(kept, candidates[i])
  }

  lemma NothingKept()
    ensures forall cs: seq<Match> :: KeptSoFar(cs, 0, [])
  {
  }

  lemma CandidatesProper(matches: seq<Match>)
    requires NonEmpty(matches)
    ensures NonEmpty(Candidates(matches))
  {
    hide Candidates;
    CandidatesInOrder(matches);
    forall i | 0 <= i < |Candidates(matches)| ensures Candidates(matches)[i].lo < Candidates(matches)[i].hi {
      assert Candidates(matches)[i] in matches;
    }
  }

  lemma ConsiderMatch(candidates: seq<Match>, n: nat, kept: seq<Match>)
    requires InOrder(candidates) && NonEmpty(candidates) && n < |candidates| && KeptSoFar(candidates, n, kept)
    ensures KeptSoFar(candidates, n + 1, if OverlapsAny(candidates[n], kept) then kept else kept + [candidates[n]])
  {
    hide StartsBefore, Covered, InOrder, NonEmpty;
    var m := candidates[n];
    assert candidates[..n + 1] == candidates[..n] + [m];
    KeptStartBefore(candidates, n, kept);
    if OverlapsAny(m, kept) {
      RejectedIsCovered(kept, m);
    } else {
      KeptEndBefore(kept, m);
      KeptIsCovered(kept, m);
      forall i | 0 <= i < n ensures Covered(kept + [m], candidates[i]) {
        StillCovered(kept, m, candidates[i]);
      }
    }
  }

  lemma KeptStartBefore(candidates: seq<Match>, n: nat, kept: seq<Match>)
    requires InOrder(candidates) && NonEmpty(candidates) && n < |candidates|
    requires forall m :: m in kept ==> m in candidates[..n]
    ensures candidates[n].lo < candidates[n].hi
    ensures forall i :: 0 <= i < |kept| ==> StartsBefore(kept[i], candidates[n]) && kept[i].lo < kept[i].hi
  {
    hide StartsBefore;
    forall i | 0 <= i < |kept| ensures StartsBefore(kept[i], candidates[n]) && kept[i].lo < kept[i].hi {
      assert kept[i] in kept;
      var j :| 0 <= j < |candidates[..n]| && candidates[..n][j] == kept[i];
      assert candidates[j] == kept[i];
    }
  }

  lemma RejectedIsCovered(kept: seq<Match>, m: Match)
    requires OverlapsAny(m, kept) && forall i :: 0 <= i < |kept| ==> StartsBefore(kept[i], m)
    ensures Covered(kept, m)
  {
  }

  lemma KeptEndBefore(kept: seq<Match>, m: Match)
    requires !OverlapsAny(m, kept) && Disjoint(kept) && m.lo < m.hi
    requires forall i :: 0 <= i < |kept| ==> StartsBefore(kept[i], m) && kept[i].lo < kept[i].hi
    ensures Disjoint(kept + [m])
  {
    forall i | 0 <= i < |kept| ensures kept[i].hi <= m.lo {
      assert !Overlaps(m, kept[i]);
    }
  }

  lemma KeptIsCovered(kept: seq<Match>, m: Match)
    ensures Covered(kept + [m], m)
  {
    assert (kept + [m])[|kept|] == m;
  }

  lemma StillCovered(kept: seq<Match>, m: Match, c: Match)
    requires Covered(kept, c)
    ensures Covered(kept + [m], c)
  {
    var i :| 0 <= i < |kept| && Covers(kept[i], c);
    assert (kept + [m])[i] == kept[i];
  }

  lemma SelectionComplete(matches: seq<Match>, candidates: seq<Match>, kept: seq<Match>)
    requires forall m :: m in candidates <==> m in matches
    requires KeptSoFar(candidates, |candidates|, kept)
    ensures Selection(matches, kept)
  {
    hide Covered, Disjoint;
    assert candidates[..|candidates|] == candidates;
    forall m | m in matches ensures Covered(kept, m) {
      var i :| 0 <= i < |candidates| && candidates[i] == m;
    }
  }

  // ---------------------------------------------------------------- the selection is the only one

  /** The specification leaves no choice: two selections of the same matches are equal. */
  lemma {:induction false} SelectionUnique(matches: seq<Match>, a: seq<Match>, b: seq<Match>, n: nat)
    requires NonEmpty(matches) && Selection(matches, a) && Selection(matches, b)
    requires n <= |a| && n <= |b| && a[..n] == b[..n]
    ensures a == b
    decreases |a| - n
  {
    if n < |a| {
      GoesOn(matches, b, a, n);
      NextIsSame(matches, a, b, n);
      assert a[..n + 1] == a[..n] + [a[n]] && b[..n + 1] == b[..n] + [b[n]];
      SelectionUnique(matches, a, b, n + 1);
    } else if n < |b| {
      GoesOn(matches, a, b, n);
    }
  }

  // A match that both have kept ends before the next one of either.
  lemma SharedEndsBefore(matches: seq<Match>, a: seq<Match>, b: seq<Match>, n: nat, i: nat)
    requires NonEmpty(matches) && Selection(matches, b)
    requires n <= |a| && n < |b| && a[..n] == b[..n] && i < n
    ensures a[i].lo < a[i].hi <= b[n].lo
  {
    assert a[i] == a[..n][i] && b[i] == b[..n][i];
    assert b[i] in b && b[i] in matches;
  }

  // The next match of `b` has to be covered by one that both have not kept yet, so `a` goes on too.
  lemma GoesOn(matches: seq<Match>, a: seq<Match>, b: seq<Match>, n: nat)
    requires NonEmpty(matches) && Selection(matches, a) && Selection(matches, b)
    requires n <= |a| && n < |b| && a[..n] == b[..n]
    ensures n < |a|
  {
    hide NonEmpty, Selection;
    KeptIsMatch(matches, b, n);
    var i := CoverOf(matches, a, b[n]);
    if i < n {
      SharedEndsBefore(matches, a, b, n, i);
    }
  }

  lemma NextIsSame(matches: seq<Match>, a: seq<Match>, b: seq<Match>, n: nat)
    requires NonEmpty(matches) && Selection(matches, a) && Selection(matches, b)
    requires n < |a| && n < |b| && a[..n] == b[..n]
    ensures a[n] == b[n]
  {
    hide NonEmpty, Selection;
    CoverIsLater(matches, a, b, n);
    CoverIsLater(matches, b, a, n);
  }

  lemma CoverOf(matches: seq<Match>, a: seq<Match>, m: Match) returns (i: nat)
    requires Selection(matches, a) && m in matches
    ensures i < |a| && (a[i] == m || (Overlaps(m, a[i]) && StartsBefore(a[i], m)))
  {
    assert Covered(a, m);
    i :| 0 <= i < |a| && Covers(a[i], m);
  }

  lemma KeptApart(matches: seq<Match>, a: seq<Match>, n: nat, i: nat)
    requires NonEmpty(matches) && Selection(matches, a) && n < i < |a|
    ensures a[n].lo < a[n].hi <= a[i].lo
  {
    assert a[n] in a && a[n] in matches;
  }

  lemma KeptIsMatch(matches: seq<Match>, b: seq<Match>, n: nat)
    requires Selection(matches, b) && n < |b|
    ensures b[n] in matches
  {
    assert b[n] in b;
  }

  lemma CoverIsLater(matches: seq<Match>, a: seq<Match>, b: seq<Match>, n: nat)
    requires NonEmpty(matches) && Selection(matches, a) && Selection(matches, b)
    requires n < |a| && n < |b| && a[..n] == b[..n]
    ensures a[n] == b[n] || (StartsBefore(a[n], b[n]) && Overlaps(a[n], b[n])) || a[n].lo < b[n].lo
  {
    hide NonEmpty, Selection;
    KeptIsMatch(matches, b, n);
    var i := CoverOf(matches, a, b[n]);
    if i < n {
      SharedEndsBefore(matches, a, b, n, i);
    } else if i > n {
      KeptApart(matches, a, n, i);
    }
  }
}
