/** Tokens and BM25-style sparse vectors, as computed for every indexed chunk and every claimed quote. */
module SparseVectors {
  import opened Text

  const VOCAB_SIZE: nat := 30000

  // ---------------------------------------------------------------- tokens

  predicate IsTokenChar(c: char) {
    'a' <= c <= 'z' || '0' <= c <= '9'
  }

  // `str.lower()`, as far as it can produce token characters: the dotted capital I and the Kelvin sign do.
  function LowerChar(c: char): string {
    if 'A' <= c <= 'Z' then [(c as int + 32) as char]
    else if c == '\U{0130}' then "i\U{0307}"
    else if c == '\U{212A}' then "k"
    else [c]
  }

  function Lower(s: string): string {
    if s == "" then "" else LowerChar(s[0]) + Lower(s[1..])
  }

  function RunEnd(s: string, i: nat): (r: nat)
    requires i <= |s|
    ensures i <= r <= |s|
    ensures r < |s| ==> !IsTokenChar(s[r])
    ensures forall k :: i <= k < r ==> IsTokenChar(s[k])
    decreases |s| - i
  {
    if i == |s| || !IsTokenChar(s[i]) then i else RunEnd(s, i + 1)
  }

  /** `re.findall("[a-z0-9]+", s)` */
  function Runs(s: string): seq<string>
    decreases |s|
  {
    if s == "" then []
    else if !IsTokenChar(s[0]) then Runs(s[1..])
    else [s[..RunEnd(s, 0)]] + Runs(s[RunEnd(s, 0)..])
  }

  predicate IsStopword(w: string) {
    w in {
      "a", "an", "the", "and", "or", "but", "if", "while", "of", "at", "by", "for", "with", "about", "against",
      "between", "into", "through", "during", "before", "after", "above", "below", "to", "from", "up", "down",
      "in", "out", "on", "off", "over", "under", "again", "further", "then", "once", "here", "there", "all",
      "any", "both", "each", "few", "more", "most", "other", "some", "such", "no", "nor", "not", "only", "own",
      "same", "so", "than", "too", "very", "s", "t", "can", "will", "just", "don", "should", "now", "is", "are",
      "was", "were", "be", "been", "being", "have", "has", "had", "do", "does", "did", "doing", "this", "that",
      "these", "those", "i", "you", "he", "she", "it", "we", "they", "what", "which", "who", "whom", "as" }
  }

  function DropStopwords(words: seq<string>): seq<string> {
    if words == [] then []
    else (if IsStopword(words[0]) then [] else [words[0]]) + DropStopwords(words[1..])
  }

  function Tokenize(text: string): seq<string> {
    DropStopwords(Runs(Lower(text)))
  }

  // ---------------------------------------------------------------- cutting text at token boundaries

  predicate CutsToken(a: string, b: string) {
    a != "" && b != "" && IsTokenChar(a[|a| - 1]) && IsTokenChar(b[0])
  }

  /** A text's runs are those of its two parts, exactly when the cut does not go through a run. */
  lemma {:induction false} RunsConcat(a: string, b: string)
    ensures Runs(a + b) == Runs(a) + Runs(b) <==> !CutsToken(a, b)
    decreases |a|
  {
    if a == "" {
      assert a + b == b;
    } else if !IsTokenChar(a[0]) {
      assert (a + b)[1..] == a[1..] + b;
      RunsConcat(a[1..], b);
    } else {
      FirstRun(a, b);
      var k := RunEnd(a, 0);
      if k < |a| {
        RunsConcat(a[k..], b);
        OneMore(a[..k], Runs(a[k..] + b), Runs(a[k..]), Runs(b));
      } else {
        WholeRun(a, b);
      }
    }
  }

  lemma FirstRun(a: string, b: string)
    requires a != "" && IsTokenChar(a[0])
    ensures var k := RunEnd(a, 0);
      && k > 0
      && (k < |a| ==> Runs(a + b) == [a[..k]] + Runs(a[k..] + b))
  {
    var k := RunEnd(a, 0);
    if k < |a| {
      assert RunEnd(a + b, 0) == k by { RunEndIs(a + b, 0, k); }
      assert (a + b)[..k] == a[..k] && (a + b)[k..] == a[k..] + b;
    }
  }

  lemma RunEndIs(s: string, i: nat, r: nat)
    requires i <= r <= |s| && (r < |s| ==> !IsTokenChar(s[r]))
    requires forall k :: i <= k < r ==> IsTokenChar(s[k])
    ensures RunEnd(s, i) == r
  {
  }

  lemma OneMore(r: string, whole: seq<string>, left: seq<string>, right: seq<string>)
    ensures [r] + whole == ([r] + left) + right <==> whole == left + right
  {
    assert ([r] + left) + right == [r] + (left + right);
    assert ([r] + whole)[1..] == whole && ([r] + (left + right))[1..] == left + right;
  }

  lemma WholeRun(a: string, b: string)
    requires a != "" && IsTokenChar(a[0]) && RunEnd(a, 0) == |a|
    ensures Runs(a + b) == Runs(a) + Runs(b) <==> !CutsToken(a, b)
  {
    assert a[..|a|] == a && a[|a|..] == "";
    assert Runs(a) == [a];
    var k := RunEnd(b, 0);
    RunEndIs(a + b, 0, |a| + k);
    assert (a + b)[|a| + k..] == b[k..];
    assert Runs(a + b) == [(a + b)[..|a| + k]] + Runs(b[k..]);
    if k == 0 {
      assert (a + b)[..|a|] == a && b[0..] == b;
    } else {
      assert |Runs(a + b)| < |Runs(a) + Runs(b)|;
    }
  }

  lemma {:induction false} LowerConcat(a: string, b: string)
    ensures Lower(a + b) == Lower(a) + Lower(b)
  {
    hide LowerChar;
    if a == "" {
      assert a + b == b;
    } else {
      assert (a + b)[1..] == a[1..] + b;
      LowerConcat(a[1..], b);
    }
  }

  lemma {:induction false} DropStopwordsConcat(a: seq<string>, b: seq<string>)
    ensures DropStopwords(a + b) == DropStopwords(a) + DropStopwords(b)
  {
    hide IsStopword;
    if a == [] {
      assert a + b == b;
    } else {
      assert (a + b)[1..] == a[1..] + b;
      DropStopwordsConcat(a[1..], b);
    }
  }

  lemma TokenizeConcat(a: string, b: string)
    requires !CutsToken(Lower(a), Lower(b))
    ensures Tokenize(a + b) == Tokenize(a) + Tokenize(b)
  {
    hide Lower, CutsToken, Runs, DropStopwords;
    LowerConcat(a, b);
    RunsConcat(Lower(a), Lower(b));
    DropStopwordsConcat(Runs(Lower(a)), Runs(Lower(b)));
  }

  /** A quote cut out of a text at token boundaries keeps its tokens: they stand in a row in the text's own. */
  lemma QuoteKeepsTokens(before: string, quote: string, after: string)
    requires !CutsToken(Lower(before), Lower(quote)) && !CutsToken(Lower(before + quote), Lower(after))
    ensures Tokenize(before + quote + after) == Tokenize(before) + Tokenize(quote) + Tokenize(after)
  {
    hide Lower, CutsToken, Tokenize;
    TokenizeConcat(before + quote, after);
    TokenizeConcat(before, quote);
  }

  /** Whitespace stays as it is under `lower()` and is no part of a token. */
  lemma {:induction false} LowerSpace(s: string)
    requires AllSpace(s)
    ensures Lower(s) == s && Tokenize(s) == [] && forall b :: !CutsToken(s, b) && !CutsToken(b, s)
  {
    if s != "" {
      SpaceIsPlain(s[0]);
      SpaceIsPlain(s[|s| - 1]);
      hide IsSpace, IsTokenChar, LowerChar;
      LowerSpace(s[1..]);
      assert Runs(s) == Runs(s[1..]);
    }
  }

  lemma SpaceIsPlain(c: char)
    requires IsSpace(c)
    ensures LowerChar(c) == [c] && !IsTokenChar(c)
  {
  }

  // ---------------------------------------------------------------- cutting through the last token

  function RunStart(s: string, n: nat): (k: nat)
    requires n <= |s|
    ensures k <= n && (k > 0 ==> !IsTokenChar(s[k - 1]))
    ensures forall i :: k <= i < n ==> IsTokenChar(s[i])
  {
    if n > 0 && IsTokenChar(s[n - 1]) then RunStart(s, n - 1) else n
  }

  lemma {:induction false} DropStopwordsShorter(words: seq<string>)
    ensures |DropStopwords(words)| <= |words|
  {
    hide IsStopword;
    if words != [] {
      DropStopwordsShorter(words[1..]);
    }
  }

  lemma OneRun(s: string)
    requires forall i :: 0 <= i < |s| ==> IsTokenChar(s[i])
    ensures |Runs(s)| <= 1 && (s != "" ==> Runs(s) == [s])
  {
    if s != "" {
      RunEndIs(s, 0, |s|);
      assert s[|s|..] == "" && s[..|s|] == s;
    }
  }

  // The runs of `s` before its last one are runs of every continuation of `s`.
  lemma RunsGoOn(s: string, more: string)
    ensures var k := RunStart(s, |s|);
      && Runs(s) == Runs(s[..k]) + Runs(s[k..]) && |Runs(s[k..])| <= 1
      && Runs(s + more) == Runs(s[..k]) + Runs(s[k..] + more)
  {
    hide Runs;
    var k := RunStart(s, |s|);
    assert s == s[..k] + s[k..] && s + more == s[..k] + (s[k..] + more);
    assert forall b :: !CutsToken(s[..k], b);
    RunsConcat(s[..k], s[k..]);
    RunsConcat(s[..k], s[k..] + more);
    OneRun(s[k..]);
  }

  /** However a text is continued, it keeps its tokens but perhaps the last one: with two, it keeps one. */
  lemma TwoTokensKeepOne(s: string, more: string)
    requires |Tokenize(s)| >= 2
    ensures Tokenize(s)[0] in Tokenize(s + more)
  {
    hide Runs, RunStart, Lower, DropStopwords;
    var low, k := Lower(s), RunStart(Lower(s), |Lower(s)|);
    LowerConcat(s, more);
    RunsGoOn(low, Lower(more));
    DropStopwordsConcat(Runs(low[..k]), Runs(low[k..]));
    DropStopwordsConcat(Runs(low[..k]), Runs(low[k..] + Lower(more)));
    DropStopwordsShorter(Runs(low[k..]));
  }

  /** The tokens of a text before the one its end may cut, and the token characters at its end. */
  function WholeTokens(s: string): seq<string> {
    DropStopwords(Runs(Lower(s)[..RunStart(Lower(s), |Lower(s)|)]))
  }

  function Stub(s: string): string {
    Lower(s)[RunStart(Lower(s), |Lower(s)|)..]
  }

  /** The tokens of a text behind the token characters it starts with. */
  function TokensBeyondCut(s: string): seq<string> {
    DropStopwords(Runs(Lower(s)[RunEnd(Lower(s), 0)..]))
  }

  /**
   * What survives the end of a quote, which may lie inside a token of the text that goes on with `after`: a
   * token before the last one; or the last one, if it is not cut; or its stub, if that is again a token behind
   * the token it was cut from.
   */
  predicate KeepsToken(quote: string, after: string) {
    || WholeTokens(quote) != []
    || (&& Stub(quote) != "" && !IsStopword(Stub(quote))
        && (!CutsToken(Lower(quote), Lower(after)) || Stub(quote) in TokensBeyondCut(after)))
  }

  lemma StubRuns(stub: string, more: string)
    requires stub != "" && forall i :: 0 <= i < |stub| ==> IsTokenChar(stub[i])
    ensures var e := RunEnd(more, 0); Runs(stub + more) == [stub + more[..e]] + Runs(more[e..])
  {
    var e := RunEnd(more, 0);
    var text := stub + more;
    RunEndIs(text, 0, |stub| + e);
    assert IsTokenChar(text[0]);
    hide RunEnd, IsTokenChar, Runs;
    assert text[..|stub| + e] == stub + more[..e];
    assert text[|stub| + e..] == more[e..];
    UnfoldRuns(text);
  }

  lemma UnfoldRuns(s: string)
    requires s != "" && IsTokenChar(s[0])
    ensures Runs(s) == [s[..RunEnd(s, 0)]] + Runs(s[RunEnd(s, 0)..])
  {
  }

  lemma DropOne(w: string, rest: seq<string>)
    ensures DropStopwords([w] + rest) == (if IsStopword(w) then [] else [w]) + DropStopwords(rest)
  {
    hide IsStopword;
    assert ([w] + rest)[1..] == rest;
  }

  // The stub against the runs of the text that goes on.
  lemma StubKept(stub: string, more: string)
    requires stub != "" && forall i :: 0 <= i < |stub| ==> IsTokenChar(stub[i])
    ensures DropStopwords(Runs(stub)) == if IsStopword(stub) then [] else [stub]
    ensures !IsStopword(stub) ==>
      (stub in DropStopwords(Runs(stub + more))
       <==> RunEnd(more, 0) == 0 || stub in DropStopwords(Runs(more[RunEnd(more, 0)..])))
  {
    OneRun(stub);
    StubRuns(stub, more);
    hide IsStopword, IsTokenChar, Runs, RunEnd;
    var e := RunEnd(more, 0);
    DropOne(stub, []);
    assert [stub] + [] == [stub];
    DropOne(stub + more[..e], Runs(more[e..]));
    assert e == 0 ==> stub + more[..e] == stub;
    assert e > 0 ==> |stub + more[..e]| > |stub|;
  }

  lemma TokensAtCut(quote: string, after: string)
    ensures Tokenize(quote) == WholeTokens(quote) + DropStopwords(Runs(Stub(quote)))
    ensures Tokenize(quote + after) == WholeTokens(quote) + DropStopwords(Runs(Stub(quote) + Lower(after)))
  {
    hide Runs, RunStart, Lower, DropStopwords;
    var low, k := Lower(quote), RunStart(Lower(quote), |Lower(quote)|);
    LowerConcat(quote, after);
    RunsGoOn(low, Lower(after));
    DropStopwordsConcat(Runs(low[..k]), Runs(low[k..]));
    DropStopwordsConcat(Runs(low[..k]), Runs(low[k..] + Lower(after)));
  }

  lemma StubIsCut(quote: string, after: string)
    ensures forall i :: 0 <= i < |Stub(quote)| ==> IsTokenChar(Stub(quote)[i])
    ensures Stub(quote) != "" ==> (CutsToken(Lower(quote), Lower(after)) <==> RunEnd(Lower(after), 0) > 0)
  {
    hide Lower, IsTokenChar;
  }

  ghost predicate SharesToken(a: string, b: string) {
    exists t :: t in Tokenize(a) && t in Tokenize(b)
  }

  /** A quote shares a token with the text it starts, wherever it is cut off, exactly when one survives the cut. */
  lemma KeepsTokenIff(quote: string, after: string)
    ensures SharesToken(quote, quote + after) <==> KeepsToken(quote, after)
  {
    StubIsCut(quote, after);
    TokensAtCut(quote, after);
    hide Tokenize, WholeTokens, Stub, Lower, Runs, RunEnd, CutsToken, IsStopword, DropStopwords, IsTokenChar;
    var whole, stub := WholeTokens(quote), Stub(quote);
    if whole != [] {
      assert whole[0] in Tokenize(quote) && whole[0] in Tokenize(quote + after);
    } else if stub == "" {
      assert DropStopwords(Runs("")) == [] by { NoTokens(); }
    } else {
      StubKept(stub, Lower(after));
      BeyondCut(after);
      assert [] + DropStopwords(Runs(stub)) == DropStopwords(Runs(stub));
      assert whole + DropStopwords(Runs(stub + Lower(after))) == DropStopwords(Runs(stub + Lower(after)));
      assert !IsStopword(stub) ==> stub in Tokenize(quote);
    }
  }

  lemma NoTokens()
    ensures DropStopwords(Runs("")) == []
  {
  }

  lemma BeyondCut(after: string)
    ensures TokensBeyondCut(after) == DropStopwords(Runs(Lower(after)[RunEnd(Lower(after), 0)..]))
  {
    hide Lower, RunEnd, Runs, DropStopwords;
  }

  // ---------------------------------------------------------------- weights

  const K1: real := 1.5
  const B: real := 0.75

  /** BM25's term-frequency component; in a corpus of one document its length is the average length. */
  function TermWeight(freq: nat, docLen: nat): real
    requires freq > 0 && docLen > 0
  {
    var avgdl := docLen as real / 1.0;
    (freq as real * (K1 + 1.0)) / (freq as real + K1 * (1.0 - B + B * docLen as real / avgdl))
  }

  lemma TermWeightAtLeastOne(freq: nat, docLen: nat)
    requires freq > 0 && docLen > 0
    ensures 1.0 <= TermWeight(freq, docLen) < K1 + 1.0
  {
    var f, d := freq as real, docLen as real;
    assert B * d / (d / 1.0) == B by { Cancel(B, d); }
    assert TermWeight(freq, docLen) == (f * 2.5) / (f + 1.5);
    QuotientBounds(f * 2.5, f + 1.5);
  }

  lemma Cancel(b: real, d: real)
    requires d > 0.0
    ensures b * d / (d / 1.0) == b
  {
  }

  // Products of a quotient stay behind a name, so that only their order is looked at.
  function Times(x: real, b: real): real {
    x * b
  }

  lemma TimesOrder(x: real, y: real, b: real)
    requires b > 0.0
    ensures x < y <==> Times(x, b) < Times(y, b)
  {
    assert x < y ==> (y - x) * b > 0.0;
    assert x >= y ==> (x - y) * b >= 0.0;
  }

  lemma TimesQuotient(a: real, b: real)
    requires b > 0.0
    ensures Times(a / b, b) == a && Times(1.0, b) == b && Times(2.5, b) == 2.5 * b
  {
  }

  lemma QuotientBounds(a: real, b: real)
    requires 0.0 < b <= a < 2.5 * b
    ensures 1.0 <= a / b < 2.5
  {
    hide Times;
    TimesQuotient(a, b);
    TimesOrder(a / b, 1.0, b);
    TimesOrder(a / b, 2.5, b);
  }

  function Count(tokens: seq<string>, t: string): (n: nat)
    ensures t in tokens ==> n > 0
  {
    if tokens == [] then 0 else (if tokens[0] == t then 1 else 0) + Count(tokens[1..], t)
  }

  function TokenWeight(tokens: seq<string>, t: string): real
    requires t in tokens
  {
    TermWeight(Count(tokens, t), |tokens|)
  }

  // A Python dict: its keys in insertion order, and the value of each.
  datatype Sparse = Sparse(keys: seq<nat>, weights: map<nat, real>)

  ghost predicate WellFormed(v: Sparse) {
    && (forall k :: k in v.keys <==> k in v.weights)
    && AllDistinct(v.keys)
    && forall k :: k in v.weights ==> v.weights[k] >= 1.0
  }

  function Bucket(crc: string -> nat, token: string): nat {
    crc(token) % VOCAB_SIZE
  }

  function AddWeight(v: Sparse, k: nat, w: real): Sparse {
    if k in v.weights then Sparse(v.keys, v.weights[k := v.weights[k] + w])
    else Sparse(v.keys + [k], v.weights[k := 0.0 + w])
  }

  /** The distinct tokens in order of first appearance, as `Counter` enumerates them. */
  function Distinct(tokens: seq<string>): (ds: seq<string>)
    ensures forall t :: t in ds <==> t in tokens
    ensures AllDistinct(ds)
  {
    FirstOccurrencesDistinct(tokens);
    FirstOccurrences(tokens)
  }

  /** The weight a bucket collects from a list of distinct tokens. */
  function BucketWeight(crc: string -> nat, tokens: seq<string>, ds: seq<string>, k: nat): real
    requires forall t :: t in ds ==> t in tokens
  {
    if ds == [] then 0.0 else
    var n := |ds| - 1;
    assert ds[n] in tokens;
    BucketWeight(crc, tokens, ds[..n], k) + if Bucket(crc, ds[n]) == k then TokenWeight(tokens, ds[n]) else 0.0
  }

  function WeightAt(v: Sparse, k: nat): real {
    if k in v.weights then v.weights[k] else 0.0
  }

  /** What the loop has built after the distinct tokens `ds`. */
  ghost predicate Accumulated(crc: string -> nat, tokens: seq<string>, ds: seq<string>, v: Sparse)
    requires forall t :: t in ds ==> t in tokens
  {
    && WellFormed(v)
    && (forall k :: k in v.weights <==> exists t :: t in ds && Bucket(crc, t) == k)
    && forall k: nat :: WeightAt(v, k) == BucketWeight(crc, tokens, ds, k)
  }

  method ComputeBm25Sparse(crc: string -> nat, text: string) returns (v: Sparse)
    ensures Accumulated(crc, Tokenize(text), Distinct(Tokenize(text)), v)
  {
    hide Tokenize, Distinct;
    var tokens := Tokenize(text);
    var ds := Distinct(tokens);
    v := Sparse([], map[]);
    for i := 0 to |ds|
      invariant Accumulated(crc, tokens, ds[..i], v)
    {
      assert ds[i] in tokens;
      var tf := TokenWeight(tokens, ds[i]);
      AccumulateToken(crc, tokens, ds, i, v);
      v := AddWeight(v, Bucket(crc, ds[i]), tf);
    }
    assert ds[..|ds|] == ds;
  }

  lemma AccumulateToken(crc: string -> nat, tokens: seq<string>, ds: seq<string>, i: nat, v: Sparse)
    requires i < |ds| && (forall t :: t in ds ==> t in tokens) && ds[i] in tokens
    requires Accumulated(crc, tokens, ds[..i], v)
    ensures Accumulated(crc, tokens, ds[..i + 1],
      AddWeight(v, Bucket(crc, ds[i]), TokenWeight(tokens, ds[i])))
  {
    hide TermWeight, Bucket, WellFormed;
    var t := ds[i];
    assert ds[..i + 1][..i] == ds[..i] && ds[..i + 1] == ds[..i] + [t];
    var w, b := TokenWeight(tokens, t), Bucket(crc, t);
    TermWeightAtLeastOne(Count(tokens, t), |tokens|);
    AddKeepsWellFormed(v, b, w);
    var v' := AddWeight(v, b, w);
    forall k ensures k in v'.weights <==> exists u :: u in ds[..i + 1] && Bucket(crc, u) == k {
      if k == b {
        assert t in ds[..i + 1];
      } else if k in v.weights {
        var u :| u in ds[..i] && Bucket(crc, u) == k;
        assert u in ds[..i + 1];
      }
    }
    forall k: nat ensures WeightAt(v', k) == BucketWeight(crc, tokens, ds[..i + 1], k) {
      assert WeightAt(v, k) == BucketWeight(crc, tokens, ds[..i], k);
      assert WeightAt(v', k) == WeightAt(v, k) + if b == k then w else 0.0;
      NextToken(crc, tokens, ds, i, k);
    }
  }

  lemma NextToken(crc: string -> nat, tokens: seq<string>, ds: seq<string>, i: nat, k: nat)
    requires i < |ds| && (forall t :: t in ds ==> t in tokens) && ds[i] in tokens
    ensures BucketWeight(crc, tokens, ds[..i + 1], k)
         == BucketWeight(crc, tokens, ds[..i], k) + if Bucket(crc, ds[i]) == k then TokenWeight(tokens, ds[i]) else 0.0
  {
    hide TokenWeight, Bucket;
    assert ds[..i + 1][..i] == ds[..i] && ds[..i + 1][i] == ds[i];
  }

  lemma AddKeepsWellFormed(v: Sparse, k: nat, w: real)
    requires WellFormed(v) && w >= 1.0
    ensures WellFormed(AddWeight(v, k, w))
  {
  }
}
