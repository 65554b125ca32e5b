/** The exact-quote lookup behind the hallucination check, over an index of sparse vectors. */
module QuoteLookup {
  import opened Text
  import opened SparseVectors

  // ---------------------------------------------------------------- filters

  datatype Condition = MatchValue(key: string, value: string) | MatchAny(key: string, values: seq<string>)

  const SEARCHABLE: seq<string> := ["child", "table"]
  const SCORE_THRESHOLD: real := 0.5

  predicate Meets(payload: map<string, string>, c: Condition) {
    match c
    case MatchValue(key, value) => key in payload && payload[key] == value
    case MatchAny(key, values) => key in payload && payload[key] in values
  }

  predicate Passes(payload: map<string, string>, must: seq<Condition>) {
    forall c :: c in must ==> Meets(payload, c)
  }

  function BuildFilter(tenant: string, coverage: string, extra: seq<Condition>): seq<Condition> {
    [MatchValue("tenant_id", tenant), MatchValue("coverage_id", coverage), MatchAny("chunk_type", SEARCHABLE)] + extra
  }

  predicate InScope(payload: map<string, string>, tenant: string, coverage: string) {
    && "tenant_id" in payload && payload["tenant_id"] == tenant
    && "coverage_id" in payload && payload["coverage_id"] == coverage
    && Searchable(payload)
  }

  predicate Searchable(payload: map<string, string>) {
    "chunk_type" in payload && (payload["chunk_type"] == "child" || payload["chunk_type"] == "table")
  }

  /** Extra conditions only narrow a search: whatever they are, results stay in the tenant's and coverage's chunks. */
  lemma FilterScopes(payload: map<string, string>, tenant: string, coverage: string, extra: seq<Condition>)
    ensures Passes(payload, BuildFilter(tenant, coverage, extra))
       <==> InScope(payload, tenant, coverage) && Passes(payload, extra)
  {
    var scope := [MatchValue("tenant_id", tenant), MatchValue("coverage_id", coverage),
        MatchAny("chunk_type", SEARCHABLE)];
    var must := BuildFilter(tenant, coverage, extra);
    assert forall c :: c in must <==> c in scope || c in extra;
    assert scope[0] in must && scope[1] in must && scope[2] in must;
  }

  // ---------------------------------------------------------------- the index

  // Parent chunks are stored without a vector.
  datatype Point = Point(id: string, payload: map<string, string>, content: string, vector: Option<Sparse>)
  datatype Hit = Hit(point: Point, score: real)

  ghost predicate Vectorized(crc: string -> nat, text: string, v: Sparse) {
    Accumulated(crc, Tokenize(text), Distinct(Tokenize(text)), v)
  }

  ghost predicate Indexed(crc: string -> nat, p: Point) {
    && (p.vector.Some? <==> Searchable(p.payload))
    && (p.vector.Some? ==> Vectorized(crc, p.content, p.vector.value))
  }

  /** Some token of one text falls into the bucket of a token of the other; a common token certainly does. */
  ghost predicate TokensMeet(crc: string -> nat, a: string, b: string) {
    exists t, u :: t in Tokenize(a) && u in Tokenize(b) && Bucket(crc, t) == Bucket(crc, u)
  }

  predicate Shares(q: Sparse, d: Sparse) {
    exists i :: 0 <= i < |q.keys| && q.keys[i] in d.weights
  }

  lemma SharedBuckets(crc: string -> nat, a: string, b: string, q: Sparse, d: Sparse)
    requires Vectorized(crc, a, q) && Vectorized(crc, b, d)
    ensures Shares(q, d) <==> TokensMeet(crc, a, b)
  {
    hide Tokenize, Distinct, Bucket, BucketWeight, WeightAt;
    if Shares(q, d) {
      var i :| 0 <= i < |q.keys| && q.keys[i] in d.weights;
      var k := q.keys[i];
      assert k in q.keys && k in q.weights;
      var t :| t in Distinct(Tokenize(a)) && Bucket(crc, t) == k;
      var u :| u in Distinct(Tokenize(b)) && Bucket(crc, u) == k;
      assert t in Tokenize(a) && u in Tokenize(b);
    }
    if TokensMeet(crc, a, b) {
      var t, u :| t in Tokenize(a) && u in Tokenize(b) && Bucket(crc, t) == Bucket(crc, u);
      var k := Bucket(crc, t);
      assert t in Distinct(Tokenize(a)) && u in Distinct(Tokenize(b));
      assert k in q.weights && k in d.weights;
      assert k in q.keys;
    }
  }

  // ---------------------------------------------------------------- scores

  function Dot(keys: seq<nat>, q: Sparse, d: Sparse): real {
    if keys == [] then 0.0
    else WeightAt(q, keys[0]) * WeightAt(d, keys[0]) + Dot(keys[1..], q, d)
  }

  function Score(q: Sparse, d: Sparse): real {
    Dot(q.keys, q, d)
  }

  lemma {:induction false} DotBounds(keys: seq<nat>, q: Sparse, d: Sparse)
    requires WellFormed(q) && WellFormed(d) && forall k :: k in keys ==> k in q.weights
    ensures Dot(keys, q, d) >= 0.0
    ensures (exists k :: k in keys && k in d.weights) ==> Dot(keys, q, d) >= 1.0
  {
    hide WeightAt;
    if keys != [] {
      assert keys == [keys[0]] + keys[1..];
      DotBounds(keys[1..], q, d);
      ProductBounds(q, d, keys[0]);
    }
  }

  lemma ProductBounds(q: Sparse, d: Sparse, k: nat)
    requires WellFormed(q) && WellFormed(d) && k in q.weights
    ensures WeightAt(q, k) * WeightAt(d, k) >= 0.0
    ensures k in d.weights ==> WeightAt(q, k) * WeightAt(d, k) >= 1.0
  {
    var x, y := WeightAt(q, k), WeightAt(d, k);
    if k in d.weights {
      AtLeastOne(x, y);
    }
  }

  lemma AtLeastOne(x: real, y: real)
    requires x >= 1.0 && y >= 1.0
    ensures x * y >= 1.0
  {
    assert (x - 1.0) * y >= 0.0;
  }

  /** One shared bucket is worth a score of at least 1: the threshold of a half never rejects anything. */
  lemma SharedScore(q: Sparse, d: Sparse)
    requires WellFormed(q) && WellFormed(d) && Shares(q, d)
    ensures Score(q, d) >= 1.0
  {
    hide Dot;
    var i :| 0 <= i < |q.keys| && q.keys[i] in d.weights;
    assert q.keys[i] in q.keys;
    DotBounds(q.keys, q, d);
  }

  /** Nothing shared scores nothing. */
  lemma {:induction false} NothingShared(keys: seq<nat>, q: Sparse, d: Sparse)
    requires forall k :: k in keys ==> k !in d.weights
    ensures Dot(keys, q, d) == 0.0
  {
    if keys != [] {
      assert keys == [keys[0]] + keys[1..];
      NothingShared(keys[1..], q, d);
      assert WeightAt(d, keys[0]) == 0.0;
    }
  }

  lemma NotSharedScore(q: Sparse, d: Sparse)
    requires !Shares(q, d)
    ensures Score(q, d) == 0.0
  {
    hide Dot;
    NothingShared(q.keys, q, d);
  }

  lemma {:induction false} DotAppend(keys: seq<nat>, k: nat, q: Sparse, d: Sparse)
    ensures Dot(keys + [k], q, d) == Dot(keys, q, d) + WeightAt(q, k) * WeightAt(d, k)
  {
    hide WeightAt;
    if keys == [] {
      assert [] + [k] == [k] && [k][1..] == [];
    } else {
      assert (keys + [k])[1..] == keys[1..] + [k];
      DotAppend(keys[1..], k, q, d);
    }
  }

  lemma {:induction false} DotOfOthers(keys: seq<nat>, q: Sparse, q': Sparse, d: Sparse)
    requires forall k :: k in keys ==> WeightAt(q, k) == WeightAt(q', k)
    ensures Dot(keys, q, d) == Dot(keys, q', d)
  {
    hide WeightAt;
    if keys != [] {
      assert keys == [keys[0]] + keys[1..];
      DotOfOthers(keys[1..], q, q', d);
    }
  }

  /** Each bucket in a quote's vector adds the product of the two weights, and there is nothing else in a score. */
  lemma BucketAddsProduct(q: Sparse, d: Sparse, k: nat, w: real)
    requires WellFormed(q) && k !in q.weights
    ensures Score(Sparse([], map[]), d) == 0.0
    ensures Score(AddWeight(q, k, w), d) == Score(q, d) + w * if k in d.weights then d.weights[k] else 0.0
  {
    hide Dot;
    var q' := AddWeight(q, k, w);
    DotAppend(q.keys, k, q', d);
    DotOfOthers(q.keys, q, q', d);
    assert Dot([], Sparse([], map[]), d) == 0.0 by { NothingShared([], Sparse([], map[]), d); }
  }

  // ---------------------------------------------------------------- the search and the lookup

  predicate Candidate(p: Point, must: seq<Condition>, q: Sparse) {
    Passes(p.payload, must) && p.vector.Some? && Shares(q, p.vector.value)
  }

  /** The contract of a sparse search for one result: a best-scoring point among those that pass and share a bucket. */
  ghost predicate TopOf(points: seq<Point>, must: seq<Condition>, q: Sparse, top: Option<Hit>) {
    match top
    case None => forall p :: p in points ==> !Candidate(p, must, q)
    case Some(h) =>
      && h.point in points && Candidate(h.point, must, q)
      && h.score == Score(q, h.point.vector.value)
      && forall p :: p in points && Candidate(p, must, q) ==> Score(q, p.vector.value) <= h.score
  }

  method SearchSparse(points: seq<Point>, must: seq<Condition>, q: Sparse) returns (top: Option<Hit>)
    ensures TopOf(points, must, q, top)
  {
    hide Passes, Shares, Score;
    top := None;
    for i := 0 to |points|
      invariant TopOf(points[..i], must, q, top)
    {
      var p := points[i];
      assert points[..i + 1] == points[..i] + [p];
      if Candidate(p, must, q) && (top.None? || Score(q, p.vector.value) > top.value.score) {
        top := Some(Hit(p, Score(q, p.vector.value)));
      }
    }
    assert points[..|points|] == points;
  }

  datatype Lookup = ScopeMissing | NotFound | FoundChunk(hit: Hit)

  ghost predicate SomeChunkMeets(crc: string -> nat, points: seq<Point>, quote: string, tenant: string,
                                 coverage: string) {
    exists p :: p in points && InScope(p.payload, tenant, coverage) && TokensMeet(crc, quote, p.content)
  }

  /**
   * A chunk is returned exactly when some searchable chunk of the scope has a token in a bucket of one of
   * the quote's; it is then the best-scoring one. Without a tenant and a coverage nothing is searched.
   */
  method RetrieveExactQuote(crc: string -> nat, points: seq<Point>, quote: string, tenant: string, coverage: string)
    returns (r: Lookup)
    requires forall p :: p in points ==> Indexed(crc, p)
    ensures r.ScopeMissing? <==> tenant == "" || coverage == ""
    ensures !r.ScopeMissing? ==> (r.FoundChunk? <==> SomeChunkMeets(crc, points, quote, tenant, coverage))
    ensures r.FoundChunk? ==>
      && r.hit.point in points
      && InScope(r.hit.point.payload, tenant, coverage)
      && TokensMeet(crc, quote, r.hit.point.content)
      && r.hit.score >= 1.0
    ensures r.FoundChunk? ==> BestScoring(crc, points, quote, tenant, coverage, r.hit)
  {
    if tenant == "" || coverage == "" {
      return ScopeMissing;
    }
    hide Vectorized, TokensMeet, InScope, Passes, BuildFilter, Score, Shares;
    var q := ComputeBm25Sparse(crc, quote);
    assert Vectorized(crc, quote, q) by { IsVectorized(crc, quote, q); }
    var must := BuildFilter(tenant, coverage, []);
    CandidatesMeet(crc, points, quote, q, tenant, coverage);
    if q.keys == [] {
      NoKeysNoCandidate(points, must, q);
      return NotFound;
    }
    var top := SearchSparse(points, must, q);
    if top.None? {
      return NotFound;
    }
    VectorsWellFormed(crc, quote, q);
    VectorsWellFormed(crc, top.value.point.content, top.value.point.vector.value);
    SharedScore(q, top.value.point.vector.value);
    if top.value.score < SCORE_THRESHOLD {
      return NotFound;
    }
    HitIsBest(crc, points, quote, q, tenant, coverage, top.value);
    r := FoundChunk(top.value);
  }

  /** No vector in scope scores higher against the quote's. */
  ghost predicate BestScoring(crc: string -> nat, points: seq<Point>, quote: string, tenant: string,
                              coverage: string, h: Hit) {
    exists q :: Vectorized(crc, quote, q) && BestFor(points, q, tenant, coverage, h)
  }

  ghost predicate BestFor(points: seq<Point>, q: Sparse, tenant: string, coverage: string, h: Hit) {
    && h.point.vector.Some? && h.score == Score(q, h.point.vector.value)
    && forall p :: p in points && InScope(p.payload, tenant, coverage) && p.vector.Some? ==>
         Score(q, p.vector.value) <= h.score
  }

  lemma HitIsBest(crc: string -> nat, points: seq<Point>, quote: string, q: Sparse, tenant: string,
                  coverage: string, h: Hit)
    requires Vectorized(crc, quote, q) && h.score >= 1.0
    requires TopOf(points, BuildFilter(tenant, coverage, []), q, Some(h))
    ensures BestScoring(crc, points, quote, tenant, coverage, h)
  {
    hide Vectorized, Passes, InScope, BuildFilter, Score, Shares;
    var must := BuildFilter(tenant, coverage, []);
    forall p | p in points && InScope(p.payload, tenant, coverage) && p.vector.Some?
      ensures Score(q, p.vector.value) <= h.score
    {
      FilterScopes(p.payload, tenant, coverage, []);
      PassesNothing(p.payload);
      if !Candidate(p, must, q) {
        NotSharedScore(q, p.vector.value);
      }
    }
    assert BestFor(points, q, tenant, coverage, h);
  }

  lemma IsVectorized(crc: string -> nat, text: string, v: Sparse)
    requires Accumulated(crc, Tokenize(text), Distinct(Tokenize(text)), v)
    ensures Vectorized(crc, text, v)
  {
  }

  lemma VectorsWellFormed(crc: string -> nat, text: string, v: Sparse)
    requires Vectorized(crc, text, v)
    ensures WellFormed(v)
  {
  }

  lemma NoKeysNoCandidate(points: seq<Point>, must: seq<Condition>, q: Sparse)
    requires q.keys == []
    ensures forall p :: p in points ==> !Candidate(p, must, q)
  {
  }

  lemma CandidatesMeet(crc: string -> nat, points: seq<Point>, quote: string, q: Sparse, tenant: string,
                       coverage: string)
    requires Vectorized(crc, quote, q) && forall p :: p in points ==> Indexed(crc, p)
    ensures forall p :: p in points ==>
      Candidate(p, BuildFilter(tenant, coverage, []), q)
          == (InScope(p.payload, tenant, coverage) && TokensMeet(crc, quote, p.content))
  {
    hide Vectorized, TokensMeet, Passes, BuildFilter, Shares;
    forall p | p in points
      ensures Candidate(p, BuildFilter(tenant, coverage, []), q)
          == (InScope(p.payload, tenant, coverage) && TokensMeet(crc, quote, p.content))
    {
      FilterScopes(p.payload, tenant, coverage, []);
      assert Passes(p.payload, []) by { PassesNothing(p.payload); }
      if p.vector.Some? {
        SharedBuckets(crc, quote, p.content, q, p.vector.value);
      }
    }
  }

  lemma PassesNothing(payload: map<string, string>)
    ensures Passes(payload, [])
  {
  }

  // ---------------------------------------------------------------- what it means for quotes

  /** Some searchable chunk of the scope has a token in common with the quote. */
  ghost predicate SomeChunkShares(points: seq<Point>, quote: string, tenant: string, coverage: string) {
    exists p :: p in points && InScope(p.payload, tenant, coverage) && SharesToken(quote, p.content)
  }

  /** A quote with a whole token in common with some searchable chunk of the scope is never reported missing. */
  lemma CommonTokenIsFound(crc: string -> nat, points: seq<Point>, p: Point, quote: string, tenant: string,
                           coverage: string)
    requires p in points && InScope(p.payload, tenant, coverage) && SharesToken(quote, p.content)
    ensures SomeChunkMeets(crc, points, quote, tenant, coverage)
  {
    hide Tokenize, InScope;
    assert TokensMeet(crc, quote, p.content);
  }

  // A hash under which the tokens of the quote collide with no other token.
  function Separating(quote: string): string -> nat {
    t => if t in Tokenize(quote) then 0 else 1
  }

  lemma SeparatedTokens(a: string, b: string)
    ensures TokensMeet(Separating(a), a, b) <==> SharesToken(a, b)
  {
    hide Tokenize;
    forall t, u | t in Tokenize(a) && u in Tokenize(b) && Bucket(Separating(a), t) == Bucket(Separating(a), u)
      ensures SharesToken(a, b)
    {
      assert Separating(a)(t) == 0;
      assert u in Tokenize(a);
    }
  }

  /**
   * Apart from collisions of the hash, a quote is found exactly when it has a token in common with a chunk in
   * scope.
   */
  lemma FoundIffShared(points: seq<Point>, quote: string, tenant: string, coverage: string)
    ensures (forall crc: string -> nat :: SomeChunkMeets(crc, points, quote, tenant, coverage))
       <==> SomeChunkShares(points, quote, tenant, coverage)
  {
    hide SharesToken, InScope, TokensMeet, Separating;
    if SomeChunkShares(points, quote, tenant, coverage) {
      var p :| p in points && InScope(p.payload, tenant, coverage) && SharesToken(quote, p.content);
      forall crc: string -> nat ensures SomeChunkMeets(crc, points, quote, tenant, coverage) {
        CommonTokenIsFound(crc, points, p, quote, tenant, coverage);
      }
    }
    if SomeChunkMeets(Separating(quote), points, quote, tenant, coverage) {
      var p :| p in points && InScope(p.payload, tenant, coverage) && TokensMeet(Separating(quote), quote, p.content);
      SeparatedTokens(quote, p.content);
    }
  }

  /** One chunk answers for a quote, whatever the hash and whatever else is indexed. */
  ghost predicate SurelyFound(p: Point, quote: string, tenant: string, coverage: string) {
    forall crc: string -> nat, points: seq<Point> :: p in points
        ==> SomeChunkMeets(crc, points, quote, tenant, coverage)
  }

  lemma SurelyFoundIff(p: Point, quote: string, tenant: string, coverage: string)
    requires InScope(p.payload, tenant, coverage)
    ensures SurelyFound(p, quote, tenant, coverage) <==> SharesToken(quote, p.content)
  {
    hide SharesToken, InScope, SomeChunkMeets, Separating;
    if SharesToken(quote, p.content) {
      forall crc: string -> nat, points: seq<Point> | p in points
        ensures SomeChunkMeets(crc, points, quote, tenant, coverage)
      {
        CommonTokenIsFound(crc, points, p, quote, tenant, coverage);
      }
    }
    if SurelyFound(p, quote, tenant, coverage) {
      forall crc: string -> nat ensures SomeChunkMeets(crc, [p], quote, tenant, coverage) {
        assert p in [p];
      }
      FoundIffShared([p], quote, tenant, coverage);
      var q :| q in [p] && InScope(q.payload, tenant, coverage) && SharesToken(quote, q.content);
    }
  }

  /**
   * A verbatim quote cut at token boundaries passes exactly when it has a token at all: the one way to be
   * reported missing while standing in the source word for word is to consist of stopwords and punctuation.
   */
  lemma VerbatimQuote(p: Point, before: string, quote: string, after: string, tenant: string, coverage: string)
    requires InScope(p.payload, tenant, coverage) && p.content == before + quote + after
    ensures !CutsToken(Lower(before), Lower(quote)) && !CutsToken(Lower(before + quote), Lower(after))
        ==> (SurelyFound(p, quote, tenant, coverage) <==> Tokenize(quote) != [])
  {
    hide Tokenize, InScope, CutsToken, Lower, SurelyFound;
    SurelyFoundIff(p, quote, tenant, coverage);
    if !CutsToken(Lower(before), Lower(quote)) && !CutsToken(Lower(before + quote), Lower(after)) {
      QuoteKeepsTokens(before, quote, after);
      if Tokenize(quote) != [] {
        assert Tokenize(quote)[0] in Tokenize(p.content);
      }
    }
  }

  lemma LeadingSpaceHasNoToken(before: string, text: string)
    requires AllSpace(before)
    ensures Tokenize(before + text) == Tokenize(text)
  {
    LowerSpace(before);
    hide *;
    TokenizeConcat(before, text);
    assert [] + Tokenize(text) == Tokenize(text);
  }

  /** A text sliced from the visible start of a chunk, anywhere: it shares a token exactly when one survives the cut. */
  lemma SlicedShares(before: string, quote: string, after: string)
    requires AllSpace(before)
    ensures SharesToken(quote, before + quote + after) <==> KeepsToken(quote, after)
  {
    assert before + quote + after == before + (quote + after);
    LeadingSpaceHasNoToken(before, quote + after);
    hide Tokenize, KeepsToken;
    KeepsTokenIff(quote, after);
  }

  /** A verbatim quote cut through words at its ends still passes when a core of it is whole in the source. */
  lemma VerbatimCore(before: string, head: string, core: string, tail: string, after: string)
    requires Tokenize(core) != []
    requires !CutsToken(Lower(before + head), Lower(core))
        && !CutsToken(Lower(before + head + core), Lower(tail + after))
    requires !CutsToken(Lower(head), Lower(core)) && !CutsToken(Lower(head + core), Lower(tail))
    ensures SharesToken(head + core + tail, (before + head) + core + (tail + after))
  {
    hide Tokenize, CutsToken, Lower;
    QuoteKeepsTokens(before + head, core, tail + after);
    QuoteKeepsTokens(head, core, tail);
    var t := Tokenize(core)[0];
    assert t in Tokenize((before + head) + core + (tail + after)) && t in Tokenize(head + core + tail);
  }

  /** The other direction does not hold: a chunk made of one token answers for a longer quote it cannot contain. */
  lemma HitIsNotVerbatim(crc: string -> nat, p: Point, t: string, tenant: string, coverage: string)
    requires InScope(p.payload, tenant, coverage) && p.content == t && Tokenize(t) == [t]
    ensures SomeChunkMeets(crc, [p], t + " " + t, tenant, coverage) && |t + " " + t| > |p.content|
  {
    hide InScope, DropStopwords, Runs;
    LowerConcat(t, " ");
    LowerConcat(t + " ", t);
    assert Lower(" ") == " ";
    LastIsSpace(Lower(t));
    QuoteKeepsTokens(t, " ", t);
    assert t in Tokenize(t + " " + t) && t in Tokenize(p.content);
    CommonTokenIsFound(crc, [p], p, t + " " + t, tenant, coverage);
  }

  lemma LastIsSpace(s: string)
    ensures !CutsToken(s, " ") && forall a :: !CutsToken(s + " ", a)
  {
  }
}
