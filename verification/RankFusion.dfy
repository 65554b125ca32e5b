/** Reciprocal rank fusion of the dense and the sparse result lists. */
module RankFusion {
  import opened Text
  import opened StableSort

  const RRF_K: nat := 60

  // A point as a search returns it: its id and its payload.
  datatype ScoredPoint<+P> = ScoredPoint(id: string, payload: P)
  datatype Fused<+P> = Fused(id: string, payload: P, score: real)

  // ---------------------------------------------------------------- scores

  function Reciprocal(k: nat, rank: nat): real
    requires rank > 0
  {
    1.0 / (k + rank) as real
  }

  /** What the first `n` places of a result list contribute to an id; ranks count from 1. */
  function ListScore(ids: seq<string>, n: nat, k: nat, id: string): real
    requires n <= |ids|
  {
    if n == 0 then 0.0
    else ListScore(ids, n - 1, k, id) + if ids[n - 1] == id then Reciprocal(k, n) else 0.0
  }

  function FusedScore(dense: seq<string>, sparse: seq<string>, k: nat, id: string): real {
    ListScore(dense, |dense|, k, id) + ListScore(sparse, |sparse|, k, id)
  }

  function Ids<P>(points: seq<ScoredPoint<P>>): (ids: seq<string>)
    ensures |ids| == |points|
  {
    seq(|points|, i requires 0 <= i < |points| => points[i].id)
  }

  /** Where `x` stands first in `s`; the length when it does not. */
  function Place(s: seq<string>, x: string): (i: nat)
    ensures i <= |s| && (i < |s| ==> s[i] == x) && (forall j :: 0 <= j < i ==> s[j] != x)
  {
    if s == [] || s[0] == x then 0 else 1 + Place(s[1..], x)
  }

  // ---------------------------------------------------------------- the order of the result

  /** Higher scores first, ties in the order in which the ids were first seen. */
  predicate Before(seen: seq<string>, scores: map<string, real>, x: string, y: string)
    requires x in scores && y in scores
  {
    scores[x] > scores[y] || (scores[x] == scores[y] && Place(seen, x) < Place(seen, y))
  }

  predicate Scored(ids: seq<string>, scores: map<string, real>) {
    forall x :: x in ids ==> x in scores
  }

  predicate Ranked(seen: seq<string>, scores: map<string, real>, ids: seq<string>) {
    Scored(ids, scores) && forall i, j :: 0 <= i < j < |ids| ==> Before(seen, scores, ids[i], ids[j])
  }

  /** `sorted(ids, key=scores, reverse=True)` is stable too: higher scores first, ties as they came. */
  function SortedByScore(ids: seq<string>, scores: map<string, real>): (r: seq<string>)
    ensures |r| == |ids|
  {
    Sorted((x: string, y: string) => ScoreOf(scores, x) >= ScoreOf(scores, y), ids)
  }

  function ScoreOf(scores: map<string, real>, x: string): real {
    if x in scores then scores[x] else 0.0
  }

  lemma SortRanks(seen: seq<string>, scores: map<string, real>)
    requires Scored(seen, scores) && AllDistinct(seen)
    ensures Ranked(seen, scores, SortedByScore(seen, scores))
    ensures forall x :: x in SortedByScore(seen, scores) <==> x in seen
    ensures AllDistinct(SortedByScore(seen, scores))
  {
    hide Order, Place;
    var le := (x: string, y: string) => ScoreOf(scores, x) >= ScoreOf(scores, y);
    OrderIsStable(le, seen, 0);
    var order, r := Order(le, seen, 0), SortedByScore(seen, scores);
    assert forall a :: 0 <= a < |order| ==> r[a] == seen[order[a]];
    forall x | x in seen ensures x in r {
      var k: nat :| k < |seen| && seen[k] == x;
      assert k in order;
      var a :| 0 <= a < |order| && order[a] == k;
      assert r[a] == x;
    }
    forall i, j | 0 <= i < j < |r|
      ensures r[i] != r[j] && r[i] in scores && r[j] in scores && Before(seen, scores, r[i], r[j])
    {
      assert order[i] != order[j] && Precedes(le, seen, order[i], order[j]);
      PlaceIs(seen, order[i]);
      PlaceIs(seen, order[j]);
    }
  }

  lemma PlaceIs(s: seq<string>, i: nat)
    requires AllDistinct(s) && i < |s|
    ensures Place(s, s[i]) == i
  {
  }

  // ---------------------------------------------------------------- the fusion loop

  /** The payload of the first point with this id. */
  function FirstPayload<P>(points: seq<ScoredPoint<P>>, id: string): (p: P)
    requires id in Ids(points)
  {
    if points[0].id == id then points[0].payload else
    assert Ids(points)[1..] == Ids(points[1..]);
    FirstPayload(points[1..], id)
  }

  // The two dicts of the loop, and the insertion order of their keys.
  datatype Tally<+P> = Tally(seen: seq<string>, scores: map<string, real>, payloads: map<string, P>)

  function AddPoint<P>(t: Tally<P>, p: ScoredPoint<P>, rank: nat, k: nat): Tally<P>
    requires rank > 0
  {
    Tally(if p.id in t.scores then t.seen else t.seen + [p.id],
          t.scores[p.id := ScoreOf(t.scores, p.id) + Reciprocal(k, rank)],
          if p.id in t.payloads then t.payloads else t.payloads[p.id := p.payload])
  }

  /**
   * What the dicts hold after the points `done`, the last `n` of them from the list `ids`; `base` is from
   * before it.
   */
  ghost predicate Tallied<P>(done: seq<ScoredPoint<P>>, base: map<string, real>, ids: seq<string>, n: nat, k: nat,
                             t: Tally<P>)
    requires n <= |ids|
  {
    && t.seen == FirstOccurrences(Ids(done))
    && t.scores.Keys == t.payloads.Keys
    && (forall x :: x in Ids(done) <==> x in t.scores)
    && (forall x: string :: ScoreOf(t.scores, x) == ScoreOf(base, x) + ListScore(ids, n, k, x))
    && (forall x :: x in Ids(done) ==> t.payloads[x] == FirstPayload(done, x))
  }

  // One pass of the outer loop: a result list is added to the dicts.
  method AddList<P>(ghost done: seq<ScoredPoint<P>>, list: seq<ScoredPoint<P>>, k: nat, t0: Tally<P>)
    returns (t: Tally<P>)
    requires Tallied(done, t0.scores, Ids(list), 0, k, t0)
    ensures Tallied(done + list, t0.scores, Ids(list), |list|, k, t)
  {
    hide Tallied, AddPoint, Ids;
    t := t0;
    assert done + list[..0] == done;
    for i := 0 to |list|
      invariant Tallied(done + list[..i], t0.scores, Ids(list), i, k, t)
    {
      AddPointTallies(done + list[..i], t0.scores, Ids(list), i, k, t, list[i]) by { IdAt(list, i); }
      assert done + list[..i + 1] == done + list[..i] + [list[i]];
      t := AddPoint(t, list[i], i + 1, k);
    }
    assert list[..|list|] == list;
  }

  lemma IdAt<P>(list: seq<ScoredPoint<P>>, i: nat)
    requires i < |list|
    ensures Ids(list)[i] == list[i].id
  {
  }

  lemma AddPointTallies<P>(done: seq<ScoredPoint<P>>, base: map<string, real>, ids: seq<string>, n: nat, k: nat,
                           t: Tally<P>, p: ScoredPoint<P>)
    requires n < |ids| && ids[n] == p.id && Tallied(done, base, ids, n, k, t)
    ensures Tallied(done + [p], base, ids, n + 1, k, AddPoint(t, p, n + 1, k))
  {
    hide Reciprocal, FirstPayload, FirstOccurrences;
    assert Ids(done + [p]) == Ids(done) + [p.id];
    FirstOccurrencesSnoc(Ids(done), p.id);
    AddedPayloads(done, base, ids, n, k, t, p);
    hide Ids;
  }

  lemma AddedPayloads<P>(done: seq<ScoredPoint<P>>, base: map<string, real>, ids: seq<string>, n: nat, k: nat,
                         t: Tally<P>, p: ScoredPoint<P>)
    requires n <= |ids| && Tallied(done, base, ids, n, k, t)
    ensures var payloads := AddPoint(t, p, n + 1, k).payloads;
      forall x :: x in Ids(done + [p]) ==> x in payloads && payloads[x] == FirstPayload(done + [p], x)
  {
    hide Reciprocal, FirstPayload, FirstOccurrences, ListScore;
    assert Ids(done + [p]) == Ids(done) + [p.id];
    forall x | x in Ids(done + [p])
      ensures FirstPayload(done + [p], x) == if x in Ids(done) then FirstPayload(done, x) else p.payload
    {
      FirstPayloadSnoc(done, p, x);
    }
  }

  lemma FirstOccurrencesSnoc(s: seq<string>, x: string)
    ensures FirstOccurrences(s + [x]) == if x in s then FirstOccurrences(s) else FirstOccurrences(s) + [x]
  {
    assert (s + [x])[..|s|] == s;
  }

  lemma {:induction false} FirstPayloadSnoc<P>(done: seq<ScoredPoint<P>>, p: ScoredPoint<P>, x: string)
    requires x in Ids(done + [p])
    ensures FirstPayload(done + [p], x) == if x in Ids(done) then FirstPayload(done, x) else p.payload
  {
    assert Ids(done + [p]) == Ids(done) + [p.id];
    if done != [] {
      assert (done + [p])[1..] == done[1..] + [p];
      assert Ids(done) == [done[0].id] + Ids(done[1..]);
      assert Ids(done[1..] + [p]) == Ids(done[1..]) + [p.id];
      if done[0].id != x {
        FirstPayloadSnoc(done[1..], p, x);
      }
    }
  }

  /** The fused list: everything either search found, once, best score first. */
  ghost predicate Fusion<P>(dense: seq<ScoredPoint<P>>, sparse: seq<ScoredPoint<P>>, k: nat, out: seq<Fused<P>>) {
    var seen := FirstOccurrences(Ids(dense + sparse));
    && AllDistinct(FusedIds(out))
    && (forall x :: x in FusedIds(out) <==> x in seen)
    && (forall i :: 0 <= i < |out| ==> out[i].id in Ids(dense + sparse))
    && (forall i :: 0 <= i < |out| ==> out[i].score == FusedScore(Ids(dense), Ids(sparse), k, out[i].id))
    && (forall i :: 0 <= i < |out| ==> out[i].payload == FirstPayload(dense + sparse, out[i].id))
    && (forall i, j :: 0 <= i < j < |out| ==>
          out[i].score > out[j].score
          || (out[i].score == out[j].score && Place(seen, out[i].id) < Place(seen, out[j].id)))
  }

  function FusedIds<P>(out: seq<Fused<P>>): seq<string> {
    seq(|out|, i requires 0 <= i < |out| => out[i].id)
  }

  function MakeFused<P>(ids: seq<string>, t: Tally<P>): (out: seq<Fused<P>>)
    requires forall x :: x in ids ==> x in t.scores && x in t.payloads
    ensures |out| == |ids|
    ensures forall i :: 0 <= i < |ids| ==> out[i] == Fused(ids[i], t.payloads[ids[i]], t.scores[ids[i]])
  {
    seq(|ids|, i requires 0 <= i < |ids| =>
      assert ids[i] in ids; Fused(ids[i], t.payloads[ids[i]], t.scores[ids[i]]))
  }

  method ReciprocalRankFusion<P>(dense: seq<ScoredPoint<P>>, sparse: seq<ScoredPoint<P>>, k: nat)
    returns (out: seq<Fused<P>>)
    ensures Fusion(dense, sparse, k, out)
  {
    hide Tallied, SortedByScore, Fusion, FirstOccurrences;
    var t: Tally<P> := Tally([], map[], map[]);
    NothingTallied(t, Ids(dense), k);
    t := AddList([], dense, k, t);
    assert [] + dense == dense;
    ghost var t1 := t;
    NextList(dense, Ids(dense), Ids(sparse), k, t);
    t := AddList(dense, sparse, k, t);
    BothTallied(dense, sparse, k, t1, t);
    var ids := SortedByScore(t.seen, t.scores);
    SeenAreDistinct(dense, sparse, k, t);
    SortRanks(t.seen, t.scores);
    out := MakeFused(ids, t);
    FusedIsFusion(dense, sparse, k, t, out);
  }

  /** After both lists: the seen ids, each with its fused score and its first payload. */
  ghost predicate AllTallied<P>(dense: seq<ScoredPoint<P>>, sparse: seq<ScoredPoint<P>>, k: nat, t: Tally<P>) {
    && t.seen == FirstOccurrences(Ids(dense + sparse))
    && t.scores.Keys == t.payloads.Keys
    && (forall x :: x in t.seen <==> x in t.scores)
    && (forall x :: x in t.seen ==> x in Ids(dense + sparse) && t.payloads[x] == FirstPayload(dense + sparse, x))
    && (forall x :: x in t.scores ==> t.scores[x] == FusedScore(Ids(dense), Ids(sparse), k, x))
  }

  lemma NothingTallied<P>(t: Tally<P>, ids: seq<string>, k: nat)
    requires t == Tally([], map[], map[])
    ensures Tallied([], t.scores, ids, 0, k, t)
  {
  }

  lemma NextList<P>(done: seq<ScoredPoint<P>>, ids: seq<string>, next: seq<string>, k: nat, t: Tally<P>)
    requires Tallied(done, map[], ids, |ids|, k, t)
    ensures Tallied(done, t.scores, next, 0, k, t)
  {
    hide FirstOccurrences, FirstPayload;
  }

  lemma BothTallied<P>(dense: seq<ScoredPoint<P>>, sparse: seq<ScoredPoint<P>>, k: nat, t1: Tally<P>, t: Tally<P>)
    requires Tallied(dense, map[], Ids(dense), |dense|, k, t1)
    requires Tallied(dense + sparse, t1.scores, Ids(sparse), |sparse|, k, t)
    ensures AllTallied(dense, sparse, k, t)
  {
    hide FirstOccurrences, FirstPayload, ListScore, Ids;
    FirstOccurrencesDistinct(Ids(dense + sparse));
    forall x | x in t.scores ensures t.scores[x] == FusedScore(Ids(dense), Ids(sparse), k, x) {
      assert ScoreOf(t.scores, x) == ScoreOf(t1.scores, x) + ListScore(Ids(sparse), |sparse|, k, x);
      assert ScoreOf(t1.scores, x) == ScoreOf(map[], x) + ListScore(Ids(dense), |dense|, k, x);
    }
  }

  lemma SeenAreDistinct<P>(dense: seq<ScoredPoint<P>>, sparse: seq<ScoredPoint<P>>, k: nat, t: Tally<P>)
    requires AllTallied(dense, sparse, k, t)
    ensures AllDistinct(t.seen) && Scored(t.seen, t.scores)
  {
    hide FirstOccurrences;
    FirstOccurrencesDistinct(Ids(dense + sparse));
  }

  lemma FusedIsFusion<P>(dense: seq<ScoredPoint<P>>, sparse: seq<ScoredPoint<P>>, k: nat, t: Tally<P>,
                         out: seq<Fused<P>>)
    requires AllTallied(dense, sparse, k, t)
    requires |out| == |SortedByScore(t.seen, t.scores)|
    requires forall i :: 0 <= i < |out| ==>
      var id := SortedByScore(t.seen, t.scores)[i];
      id in t.scores && id in t.payloads && out[i] == Fused(id, t.payloads[id], t.scores[id])
    ensures Fusion(dense, sparse, k, out)
  {
    hide SortedByScore, FirstOccurrences, FirstPayload, FusedScore, Place, Ids;
    SeenAreDistinct(dense, sparse, k, t);
    SortRanks(t.seen, t.scores);
    assert FusedIds(out) == SortedByScore(t.seen, t.scores);
    forall i | 0 <= i < |out| ensures out[i].id in t.seen {
      assert out[i].id in SortedByScore(t.seen, t.scores);
    }
  }

  // ---------------------------------------------------------------- what the ranking guarantees

  lemma {:induction false} ListScoreAt(ids: seq<string>, n: nat, k: nat, id: string)
    requires AllDistinct(ids) && n <= |ids|
    ensures ListScore(ids, n, k, id) == if Place(ids, id) < n then Reciprocal(k, Place(ids, id) + 1) else 0.0
  {
    hide Reciprocal;
    if n > 0 {
      ListScoreAt(ids, n - 1, k, id);
      PlaceIs(ids, n - 1);
    }
  }

  lemma ReciprocalFalls(k: nat, a: nat, b: nat)
    requires 0 < a <= b
    ensures 0.0 < Reciprocal(k, b) <= Reciprocal(k, a) && (a < b ==> Reciprocal(k, b) < Reciprocal(k, a))
  {
    InverseFalls((k + a) as real, (k + b) as real);
  }

  lemma InverseFalls(x: real, y: real)
    requires 0.0 < x <= y
    ensures 0.0 < 1.0 / y <= 1.0 / x && (x < y ==> 1.0 / y < 1.0 / x)
  {
    assert 1.0 / x - 1.0 / y == (y - x) / (x * y);
  }

  lemma TwoBeatOne(k: nat)
    ensures 2.0 * Reciprocal(k, k + 1) > Reciprocal(k, 1)
    ensures 2.0 * Reciprocal(k, k + 2) == Reciprocal(k, 1)
  {
    var x := (k + 1) as real;
    assert (k + (k + 2)) as real == 2.0 * x && (k + (k + 1)) as real == 2.0 * x - 1.0;
    HalfInverse(x);
  }

  lemma HalfInverse(x: real)
    requires x >= 1.0
    ensures 2.0 * (1.0 / (2.0 * x)) == 1.0 / x
    ensures 2.0 * (1.0 / (2.0 * x - 1.0)) > 1.0 / x
  {
    InverseFalls(2.0 * x - 1.0, 2.0 * x);
  }

  /** With lists of at most k + 1 results, an id found by both searches scores above any id found by one. */
  lemma BothScoreAboveOne(dense: seq<string>, sparse: seq<string>, k: nat, x: string, y: string)
    requires AllDistinct(dense) && AllDistinct(sparse) && |dense| <= k + 1 && |sparse| <= k + 1
    requires x in dense && x in sparse && (y !in dense || y !in sparse)
    ensures FusedScore(dense, sparse, k, x) > FusedScore(dense, sparse, k, y)
  {
    hide Reciprocal, ListScore;
    ListScoreAt(dense, |dense|, k, x);
    ListScoreAt(sparse, |sparse|, k, x);
    ListScoreAt(dense, |dense|, k, y);
    ListScoreAt(sparse, |sparse|, k, y);
    PlaceOf(dense, x);
    PlaceOf(sparse, x);
    PlaceOf(dense, y);
    PlaceOf(sparse, y);
    ReciprocalFalls(k, Place(dense, x) + 1, k + 1);
    ReciprocalFalls(k, Place(sparse, x) + 1, k + 1);
    ReciprocalFalls(k, 1, Place(dense, y) + 1);
    ReciprocalFalls(k, 1, Place(sparse, y) + 1);
    TwoBeatOne(k);
  }

  lemma PlaceOf(s: seq<string>, x: string)
    ensures Place(s, x) < |s| <==> x in s
  {
  }

  /**
   * The bound is sharp: one result more, and an id found by both can tie with one found by a single search, and
   * lose the tie.
   */
  lemma BothMayLoseAtKPlusTwo(dense: seq<string>, sparse: seq<string>, k: nat)
    requires AllDistinct(dense) && AllDistinct(sparse) && |dense| == |sparse| == k + 2
    requires dense[k + 1] == sparse[k + 1] && dense[0] !in sparse
    ensures FusedScore(dense, sparse, k, dense[k + 1]) == FusedScore(dense, sparse, k, dense[0])
    ensures Place(FirstOccurrences(dense + sparse), dense[0]) < Place(FirstOccurrences(dense + sparse), dense[k + 1])
  {
    hide Reciprocal, ListScore, FirstOccurrences;
    var x, y := dense[k + 1], dense[0];
    PlaceIs(dense, k + 1);
    PlaceIs(sparse, k + 1);
    PlaceIs(dense, 0);
    PlaceOf(sparse, y);
    ListScoreAt(dense, |dense|, k, x);
    ListScoreAt(sparse, |sparse|, k, x);
    ListScoreAt(dense, |dense|, k, y);
    ListScoreAt(sparse, |sparse|, k, y);
    TwoBeatOne(k);
    FirstIsFirst(dense + sparse);
    var seen := FirstOccurrences(dense + sparse);
    assert seen[0] == y && x != y;
  }

  lemma {:induction false} FirstIsFirst(s: seq<string>)
    requires s != []
    ensures FirstOccurrences(s) != [] && FirstOccurrences(s)[0] == s[0]
  {
    if |s| > 1 {
      FirstIsFirst(s[..|s| - 1]);
    } else {
      assert s[..0] == [];
    }
  }

  /** An id that both searches rank ahead of another keeps its lead. */
  lemma LeadInBothScoresAbove(dense: seq<string>, sparse: seq<string>, k: nat, x: string, y: string)
    requires AllDistinct(dense) && AllDistinct(sparse)
    requires y in dense && y in sparse && Place(dense, x) < Place(dense, y) && Place(sparse, x) < Place(sparse, y)
    ensures FusedScore(dense, sparse, k, x) > FusedScore(dense, sparse, k, y)
  {
    hide Reciprocal, ListScore;
    ListScoreAt(dense, |dense|, k, x);
    ListScoreAt(sparse, |sparse|, k, x);
    ListScoreAt(dense, |dense|, k, y);
    ListScoreAt(sparse, |sparse|, k, y);
    ReciprocalFalls(k, Place(dense, x) + 1, Place(dense, y) + 1);
    ReciprocalFalls(k, Place(sparse, x) + 1, Place(sparse, y) + 1);
  }

  lemma HigherScoreFirst<P>(dense: seq<ScoredPoint<P>>, sparse: seq<ScoredPoint<P>>, k: nat, out: seq<Fused<P>>,
                            i: nat, j: nat)
    requires Fusion(dense, sparse, k, out) && i < |out| && j < |out|
    requires FusedScore(Ids(dense), Ids(sparse), k, out[i].id) > FusedScore(Ids(dense), Ids(sparse), k, out[j].id)
    ensures i < j
  {
    hide FusedScore, FirstPayload, FirstOccurrences, Place;
  }

  /** In the fused list everything both searches found stands before everything only one found. */
  lemma FoundByBothComesFirst<P>(dense: seq<ScoredPoint<P>>, sparse: seq<ScoredPoint<P>>, k: nat, out: seq<Fused<P>>,
                                 i: nat, j: nat)
    requires Fusion(dense, sparse, k, out) && i < |out| && j < |out|
    requires AllDistinct(Ids(dense)) && AllDistinct(Ids(sparse)) && |dense| <= k + 1 && |sparse| <= k + 1
    requires out[i].id in Ids(dense) && out[i].id in Ids(sparse)
    requires out[j].id !in Ids(dense) || out[j].id !in Ids(sparse)
    ensures i < j
  {
    hide FusedScore, Fusion, Ids;
    BothScoreAboveOne(Ids(dense), Ids(sparse), k, out[i].id, out[j].id);
    HigherScoreFirst(dense, sparse, k, out, i, j);
  }

  /** So it is with the retriever's constant for up to 61 results a search; by default a search returns 20. */
  lemma DefaultFusionOrder<P>(dense: seq<ScoredPoint<P>>, sparse: seq<ScoredPoint<P>>, out: seq<Fused<P>>, i: nat,
                              j: nat)
    requires Fusion(dense, sparse, RRF_K, out) && i < |out| && j < |out|
    requires AllDistinct(Ids(dense)) && AllDistinct(Ids(sparse)) && |dense| <= 61 && |sparse| <= 61
    requires out[i].id in Ids(dense) && out[i].id in Ids(sparse)
    requires out[j].id !in Ids(dense) || out[j].id !in Ids(sparse)
    ensures i < j
  {
    hide Fusion, Ids;
    FoundByBothComesFirst(dense, sparse, RRF_K, out, i, j);
  }

  /** At 62 results the last place in both searches may tie with the first place in one, and lose. */
  lemma DefaultMayLose(dense: seq<string>, sparse: seq<string>)
    requires AllDistinct(dense) && AllDistinct(sparse) && |dense| == |sparse| == 62
    requires dense[61] == sparse[61] && dense[0] !in sparse
    ensures FusedScore(dense, sparse, RRF_K, dense[61]) == FusedScore(dense, sparse, RRF_K, dense[0])
    ensures Place(FirstOccurrences(dense + sparse), dense[0]) < Place(FirstOccurrences(dense + sparse), dense[61])
  {
    hide FusedScore, FirstOccurrences, Place;
    BothMayLoseAtKPlusTwo(dense, sparse, RRF_K);
  }

  /** A fused score is 1 / (k + rank) for each list the id is in, ranks counting from 1. */
  lemma ScoreExact(dense: seq<string>, sparse: seq<string>, k: nat, x: string)
    requires AllDistinct(dense) && AllDistinct(sparse)
    ensures FusedScore(dense, sparse, k, x)
      == (if x in dense then 1.0 / (k + 1 + Place(dense, x)) as real else 0.0)
       + (if x in sparse then 1.0 / (k + 1 + Place(sparse, x)) as real else 0.0)
  {
    hide ListScore, Place;
    ListScoreAt(dense, |dense|, k, x);
    ListScoreAt(sparse, |sparse|, k, x);
    PlaceOf(dense, x);
    PlaceOf(sparse, x);
  }
}
