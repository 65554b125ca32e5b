/** Python's `sorted`: a stable sort, given as the order in which it takes the positions of its input. */
module StableSort {
  import opened Text

  ghost predicate TotalPreorder<T(!new)>(le: (T, T) -> bool) {
    && (forall x, y :: le(x, y) || le(y, x))
    && forall x, y, z :: le(x, y) && le(y, z) ==> le(x, z)
  }

  predicate Positions(n: nat, order: seq<nat>) {
    forall a :: 0 <= a < |order| ==> order[a] < n
  }

  function Insert<T>(le: (T, T) -> bool, xs: seq<T>, i: nat, order: seq<nat>): (r: seq<nat>)
    requires i < |xs| && Positions(|xs|, order)
    ensures Positions(|xs|, r) && |r| == |order| + 1
  {
    if order == [] || le(xs[i], xs[order[0]]) then [i] + order
    else [order[0]] + Insert(le, xs, i, order[1..])
  }

  /** The positions from `n` on, sorted. */
  function Order<T>(le: (T, T) -> bool, xs: seq<T>, n: nat): (r: seq<nat>)
    requires n <= |xs|
    ensures Positions(|xs|, r) && |r| == |xs| - n
    decreases |xs| - n
  {
    if n == |xs| then [] else Insert(le, xs, n, Order(le, xs, n + 1))
  }

  function Sorted<T>(le: (T, T) -> bool, xs: seq<T>): (r: seq<T>)
    ensures |r| == |xs|
  {
    var order := Order(le, xs, 0);
    seq(|order|, a requires 0 <= a < |order| => xs[order[a]])
  }

  /** Position `i` goes before position `j`: in order, and by position when they tie. */
  predicate Precedes<T>(le: (T, T) -> bool, xs: seq<T>, i: nat, j: nat)
    requires i < |xs| && j < |xs|
  {
    le(xs[i], xs[j]) && (le(xs[j], xs[i]) ==> i < j)
  }

  predicate Ordered<T>(le: (T, T) -> bool, xs: seq<T>, order: seq<nat>)
    requires Positions(|xs|, order)
  {
    forall a, b :: 0 <= a < b < |order| ==> Precedes(le, xs, order[a], order[b])
  }

  lemma {:induction false} InsertMembers<T>(le: (T, T) -> bool, xs: seq<T>, i: nat, order: seq<nat>)
    requires i < |xs| && Positions(|xs|, order)
    ensures forall k :: k in Insert(le, xs, i, order) <==> k == i || k in order
    ensures i !in order && AllDistinct(order) ==> AllDistinct(Insert(le, xs, i, order))
  {
    if order != [] && !le(xs[i], xs[order[0]]) {
      InsertMembers(le, xs, i, order[1..]);
      assert order == [order[0]] + order[1..];
      assert AllDistinct(order) ==> order[0] !in order[1..];
    }
  }

  lemma Prepend<T>(le: (T, T) -> bool, xs: seq<T>, i: nat, order: seq<nat>)
    requires i < |xs| && Positions(|xs|, order) && Ordered(le, xs, order)
    requires forall k :: k in order ==> Precedes(le, xs, i, k)
    ensures Positions(|xs|, [i] + order) && Ordered(le, xs, [i] + order)
  {
    hide Precedes;
    var r := [i] + order;
    forall a, b | 0 <= a < b < |r| ensures Precedes(le, xs, r[a], r[b]) {
      assert r[b] == order[b - 1];
      assert a > 0 ==> r[a] == order[a - 1];
    }
  }

  lemma {:induction false} InsertOrdered<T(!new)>(le: (T, T) -> bool, xs: seq<T>, i: nat, order: seq<nat>)
    requires TotalPreorder(le)
    requires i < |xs| && Positions(|xs|, order) && Ordered(le, xs, order) && forall k :: k in order ==> i < k
    ensures Ordered(le, xs, Insert(le, xs, i, order))
  {
    if order != [] && !le(xs[i], xs[order[0]]) {
      var rest := order[1..];
      assert forall k :: k in rest ==> k in order;
      InsertOrdered(le, xs, i, rest);
      InsertMembers(le, xs, i, rest);
      forall k | k in Insert(le, xs, i, rest) ensures Precedes(le, xs, order[0], k) {
        if k != i {
          var b :| 0 <= b < |rest| && rest[b] == k;
          assert order[b + 1] == k;
        }
      }
      Prepend(le, xs, order[0], Insert(le, xs, i, rest));
    } else {
      forall k | k in order ensures Precedes(le, xs, i, k) {
        var b :| 0 <= b < |order| && order[b] == k;
        assert b > 0 ==> Precedes(le, xs, order[0], order[b]);
      }
      Prepend(le, xs, i, order);
    }
  }

  /** The sort is a permutation of the positions, in order, and ties keep their input order. */
  lemma {:induction false} OrderIsStable<T(!new)>(le: (T, T) -> bool, xs: seq<T>, n: nat)
    requires TotalPreorder(le) && n <= |xs|
    ensures Ordered(le, xs, Order(le, xs, n)) && AllDistinct(Order(le, xs, n))
    ensures forall k :: k in Order(le, xs, n) <==> n <= k < |xs|
    decreases |xs| - n
  {
    hide TotalPreorder, Ordered, AllDistinct;
    if n < |xs| {
      OrderIsStable(le, xs, n + 1);
      InsertOrdered(le, xs, n, Order(le, xs, n + 1));
      InsertMembers(le, xs, n, Order(le, xs, n + 1));
    } else {
      NothingOrdered(le, xs);
    }
  }

  lemma NothingOrdered<T>(le: (T, T) -> bool, xs: seq<T>)
    ensures Ordered(le, xs, []) && AllDistinct<nat>([])
  {
  }
}
