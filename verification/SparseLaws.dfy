/** What the tokens and the weights of a text are, said of its characters and of how often a token stands in it. */
module SparseLaws {
  import opened Text
  import opened SparseVectors

  // ---------------------------------------------------------------- tokens

  /** A stretch of token characters that ends at no other token character, and spells `w`. */
  predicate IsRun(s: string, a: int, b: int, w: string) {
    && 0 <= a < b <= |s| && s[a..b] == w
    && (forall i :: a <= i < b ==> IsTokenChar(s[i]))
    && (a == 0 || !IsTokenChar(s[a - 1]))
    && (b == |s| || !IsTokenChar(s[b]))
  }

  ghost predicate HasRun(s: string, w: string) {
    exists a, b :: IsRun(s, a, b, w)
  }

  // No run goes across `n`.
  predicate Apart(s: string, n: nat) {
    0 < n <= |s| && !(IsTokenChar(s[n - 1]) && n < |s| && IsTokenChar(s[n]))
  }

  lemma RunBehind(s: string, n: nat, a: int, b: int, w: string)
    requires Apart(s, n) && n <= a
    ensures IsRun(s, a, b, w) <==> IsRun(s[n..], a - n, b - n, w)
  {
    hide IsTokenChar;
    var t := s[n..];
    assert forall i :: 0 <= i < |t| ==> t[i] == s[n + i];
    if a <= b <= |s| {
      assert s[a..b] == t[a - n..b - n];
    }
    if IsRun(t, a - n, b - n, w) {
      forall i | a <= i < b ensures IsTokenChar(s[i]) {
        assert t[i - n] == s[i];
      }
    }
  }

  lemma {:induction false} RunsExact(s: string, w: string)
    ensures w in Runs(s) <==> HasRun(s, w)
    decreases |s|
  {
    hide IsTokenChar, IsRun, Runs;
    if s == "" {
      NothingRuns(w);
    } else {
      var n := if IsTokenChar(s[0]) then RunEnd(s, 0) else 1;
      RunsStep(s);
      RunsExact(s[n..], w);
      FirstRunOnly(s, n, w);
      assert Runs(s) == (if IsTokenChar(s[0]) then [s[..n]] else []) + Runs(s[n..]);
    }
  }

  lemma NothingRuns(w: string)
    ensures w !in Runs("") && !HasRun("", w)
  {
  }

  lemma RunsStep(s: string)
    requires s != ""
    ensures Runs(s) == if IsTokenChar(s[0]) then [s[..RunEnd(s, 0)]] + Runs(s[RunEnd(s, 0)..]) else Runs(s[1..])
  {
    hide IsTokenChar;
  }

  lemma FirstRunOnly(s: string, n: nat, w: string)
    requires s != "" && n == if IsTokenChar(s[0]) then RunEnd(s, 0) else 1
    ensures 0 < n <= |s|
    ensures HasRun(s, w) <==> (IsTokenChar(s[0]) && s[..n] == w) || HasRun(s[n..], w)
  {
    hide *;
    FirstIsRun(s, n);
    if HasRun(s, w) {
      RunOfText(s, n, w);
    }
    if HasRun(s[n..], w) {
      RunOfRest(s, n, w);
    }
    if IsTokenChar(s[0]) && s[..n] == w {
      RunGiven(s, 0, n, w);
    }
  }

  lemma RunGiven(s: string, a: int, b: int, w: string)
    requires IsRun(s, a, b, w)
    ensures HasRun(s, w)
  {
  }

  lemma RunOfText(s: string, n: nat, w: string)
    requires s != "" && n == (if IsTokenChar(s[0]) then RunEnd(s, 0) else 1) && Apart(s, n) && HasRun(s, w)
    ensures n <= |s| && ((IsTokenChar(s[0]) && s[..n] == w) || HasRun(s[n..], w))
  {
    hide IsTokenChar, IsRun, RunEnd;
    var a, b :| IsRun(s, a, b, w);
    RunBounds(s, a, b, w);
    if a < n {
      RunIsFirst(s, n, a, b, w);
    } else {
      RunBehind(s, n, a, b, w);
    }
  }

  lemma RunOfRest(s: string, n: nat, w: string)
    requires n <= |s| && Apart(s, n) && HasRun(s[n..], w)
    ensures HasRun(s, w)
  {
    hide IsTokenChar, IsRun, Apart;
    var a, b :| IsRun(s[n..], a, b, w);
    RunBounds(s[n..], a, b, w);
    RunBehind(s, n, a + n, b + n, w);
  }

  lemma FirstIsRun(s: string, n: nat)
    requires s != "" && n == if IsTokenChar(s[0]) then RunEnd(s, 0) else 1
    ensures 0 < n <= |s| && Apart(s, n) && (IsTokenChar(s[0]) ==> IsRun(s, 0, n, s[..n]))
  {
    hide IsTokenChar;
  }

  lemma RunBounds(s: string, a: int, b: int, w: string)
    requires IsRun(s, a, b, w)
    ensures 0 <= a < b <= |s|
  {
  }

  lemma RunIsFirst(s: string, n: nat, a: int, b: int, w: string)
    requires s != "" && n == if IsTokenChar(s[0]) then RunEnd(s, 0) else 1
    requires IsRun(s, a, b, w) && a < n
    ensures s[..n] == w && IsTokenChar(s[0])
  {
    hide IsTokenChar;
  }

  /** The tokens are the maximal runs of letters and digits of the lowered text that are no stopwords. */
  lemma TokensExact(text: string, w: string)
    ensures w in Tokenize(text) <==> HasRun(Lower(text), w) && !IsStopword(w)
  {
    hide Runs, Lower, HasRun, IsStopword;
    RunsExact(Lower(text), w);
    DropExact(Runs(Lower(text)), w);
  }

  lemma {:induction false} DropExact(words: seq<string>, w: string)
    ensures w in DropStopwords(words) <==> w in words && !IsStopword(w)
  {
    hide IsStopword;
    if words != [] {
      DropExact(words[1..], w);
      assert words == [words[0]] + words[1..];
    }
  }

  // No letter of ASCII, no digit, and neither the Kelvin sign nor the dotted capital I.
  predicate Separates(c: char) {
    !('a' <= c <= 'z') && !('A' <= c <= 'Z') && !('0' <= c <= '9') && c != '\U{212A}' && c != '\U{0130}'
  }

  lemma SeparatorAlone(c: char)
    requires Separates(c)
    ensures Lower([c]) == [c] && !IsTokenChar(c) && Tokenize([c]) == []
  {
    assert [c][1..] == "" && Lower("") == "";
    assert Runs([c]) == Runs("") == [];
  }

  /** Any other character stands between tokens: the tokens are those before it and those behind it. */
  lemma SeparatorSplits(a: string, c: char, b: string)
    requires Separates(c)
    ensures Tokenize(a + [c] + b) == Tokenize(a) + Tokenize(b)
  {
    SeparatorAlone(c);
    LowerConcat(a, [c]);
    assert !CutsToken(Lower(a), [c]) && !CutsToken(Lower(a + [c]), Lower(b));
    hide *;
    TokenizeConcat(a + [c], b);
    TokenizeConcat(a, [c]);
    assert Tokenize(a) + [] == Tokenize(a);
  }

  /** A number is a token. */
  lemma NumberIsToken(s: string)
    requires s != "" && forall i :: 0 <= i < |s| ==> '0' <= s[i] <= '9'
    ensures Tokenize(s) == [s]
  {
    DigitsOnly(s);
    hide *;
    TokenAlone(s);
  }

  lemma DigitsOnly(s: string)
    requires s != "" && forall i :: 0 <= i < |s| ==> '0' <= s[i] <= '9'
    ensures IsToken(s)
  {
    assert '0' <= s[0] <= '9';
  }

  /** The small letter of a capital one, the letter itself otherwise. */
  function Small(c: char): char {
    if 'A' <= c <= 'Z' then (c as int + 32) as char else c
  }

  /** A word in letters of any case is the token of its small letters. */
  lemma CapitalsAreLowered(s: string)
    requires forall i :: 0 <= i < |s| ==> 'A' <= s[i] <= 'Z' || 'a' <= s[i] <= 'z' || '0' <= s[i] <= '9'
    ensures var small := seq(|s|, i requires 0 <= i < |s| => Small(s[i]));
      s != "" && !IsStopword(small) ==> Tokenize(s) == [small]
  {
    var small := seq(|s|, i requires 0 <= i < |s| => Small(s[i]));
    LowerIsSmall(s);
    assert forall i :: 0 <= i < |s| ==> IsTokenChar(small[i]);
    hide IsStopword, Lower, Small, IsTokenChar, Runs;
    if s != "" && !IsStopword(small) {
      OneRun(small);
      DropOne(small, []);
      assert [small] + [] == [small];
    }
  }

  lemma {:induction false} LowerIsSmall(s: string)
    requires forall i :: 0 <= i < |s| ==> 'A' <= s[i] <= 'Z' || 'a' <= s[i] <= 'z' || '0' <= s[i] <= '9'
    ensures Lower(s) == seq(|s|, i requires 0 <= i < |s| => Small(s[i]))
  {
    if s != "" {
      LowerIsSmall(s[1..]);
      assert LowerChar(s[0]) == [Small(s[0])];
    }
  }

  /** Two signs outside of ASCII become token characters too: the Kelvin sign a k, the dotted capital I an i. */
  lemma UnicodeCapitals()
    ensures Tokenize("\U{212A}") == ["k"]
    ensures Tokenize("x\U{0130}") == ["xi"]
  {
    hide *;
    OneWord("\U{212A}", "k") by { KelvinRuns(); }
    OneWord("x\U{0130}", "xi") by { DottedRuns(); }
  }

  lemma OneWord(s: string, w: string)
    requires Runs(Lower(s)) == [w] && !IsStopword(w)
    ensures Tokenize(s) == [w]
  {
    hide IsStopword, Runs, Lower;
    DropOne(w, []);
    assert [w] + [] == [w];
  }

  lemma KelvinRuns()
    ensures Runs(Lower("\U{212A}")) == ["k"] && !IsStopword("k")
  {
    assert Lower("\U{212A}") == "k" by { assert Lower("\U{212A}"[1..]) == ""; }
    OneRun("k");
  }

  lemma DottedRuns()
    ensures Runs(Lower("x\U{0130}")) == ["xi"] && !IsStopword("xi")
  {
    LowerConcat("x", "\U{0130}");
    assert Lower("x") == "x" && Lower("\U{0130}") == "i\U{0307}";
    assert "x" + "\U{0130}" == "x\U{0130}" && "x" + "i\U{0307}" == "xi" + "\U{0307}";
    RunsConcat("xi", "\U{0307}");
    OneRun("xi");
    assert Runs("\U{0307}") == Runs("") == [];
  }

  // ---------------------------------------------------------------- frequencies and weights

  /** The count of a token is its multiplicity. */
  lemma {:induction false} CountIsMultiplicity(tokens: seq<string>, t: string)
    ensures Count(tokens, t) == multiset(tokens)[t]
  {
    if tokens != [] {
      CountIsMultiplicity(tokens[1..], t);
      assert tokens == [tokens[0]] + tokens[1..];
    }
  }

  lemma TermWeightIs(freq: nat, docLen: nat)
    requires freq > 0 && docLen > 0
    ensures TermWeight(freq, docLen) * (freq as real + 1.5) == freq as real * 2.5
  {
    var f, d := freq as real, docLen as real;
    assert B * d / (d / 1.0) == B by { Cancel(B, d); }
    QuotientTimes(f * 2.5, f + 1.5);
  }

  lemma QuotientTimes(a: real, b: real)
    requires b > 0.0
    ensures a / b * b == a
  {
  }

  /** A token that stands f times in a text weighs f * 2.5 / (f + 1.5). */
  lemma TokenWeightIs(tokens: seq<string>, t: string)
    requires t in tokens
    ensures var f := multiset(tokens)[t] as real; TokenWeight(tokens, t) * (f + 1.5) == f * 2.5
  {
    hide TermWeight;
    CountIsMultiplicity(tokens, t);
    TermWeightIs(Count(tokens, t), |tokens|);
  }

  lemma WeightsOrder(f: real, g: real, v: real, w: real)
    requires 0.0 < f < g && v * (f + 1.5) == f * 2.5 && w * (g + 1.5) == g * 2.5
    ensures v < w
  {
    BelowLimit(f, v);
    assert (2.5 - v) * (g - f) > 0.0;
    assert (w - v) * (g + 1.5) == (2.5 - v) * (g - f);
    assert w <= v ==> (v - w) * (g + 1.5) >= 0.0;
  }

  lemma BelowLimit(f: real, v: real)
    requires 0.0 < f && v * (f + 1.5) == f * 2.5
    ensures v < 2.5
  {
    assert v >= 2.5 ==> (v - 2.5) * (f + 1.5) >= 0.0;
  }

  /** The more often a token stands in a text, the more it weighs. */
  lemma WeightGrows(tokens: seq<string>, t: string, tokens': seq<string>, t': string)
    requires t in tokens && t' in tokens'
    ensures TokenWeight(tokens, t) < TokenWeight(tokens', t') <==> multiset(tokens)[t] < multiset(tokens')[t']
  {
    hide TokenWeight;
    var f, g := multiset(tokens)[t], multiset(tokens')[t'];
    var v, w := TokenWeight(tokens, t), TokenWeight(tokens', t');
    TokenWeightIs(tokens, t);
    TokenWeightIs(tokens', t');
    if f < g {
      WeightsOrder(f as real, g as real, v, w);
    } else if g < f {
      WeightsOrder(g as real, f as real, w, v);
    } else {
      WeightsEqual(f as real, v, w);
    }
  }

  lemma WeightsEqual(f: real, v: real, w: real)
    requires 0.0 < f && v * (f + 1.5) == f * 2.5 && w * (f + 1.5) == f * 2.5
    ensures v == w
  {
    assert (v - w) * (f + 1.5) == 0.0;
  }

  // ---------------------------------------------------------------- vectors

  /** What the loop promises of the vector of a text. */
  ghost predicate IsVector(crc: string -> nat, tokens: seq<string>, v: Sparse) {
    Accumulated(crc, tokens, Distinct(tokens), v)
  }

  /** The token is alone in its bucket, of 30000. */
  ghost predicate NoCollision(crc: string -> nat, tokens: seq<string>, t: string) {
    forall u :: u in tokens && crc(u) % 30000 == crc(t) % 30000 ==> u == t
  }

  lemma {:induction false} AloneInBucket(crc: string -> nat, tokens: seq<string>, ds: seq<string>, t: string)
    requires (forall u :: u in ds ==> u in tokens) && AllDistinct(ds)
    requires t in tokens && NoCollision(crc, tokens, t)
    ensures BucketWeight(crc, tokens, ds, crc(t) % 30000) == if t in ds then TokenWeight(tokens, t) else 0.0
  {
    hide TokenWeight;
    if ds != [] {
      var n := |ds| - 1;
      assert ds == ds[..n] + [ds[n]] && ds[n] in tokens;
      AloneInBucket(crc, tokens, ds[..n], t);
    }
  }

  /** A token alone in its bucket gives the bucket f * 2.5 / (f + 1.5), f being how often it stands in the text. */
  lemma BucketOfToken(crc: string -> nat, tokens: seq<string>, v: Sparse, t: string)
    requires IsVector(crc, tokens, v) && t in tokens && NoCollision(crc, tokens, t)
    ensures var k, f := crc(t) % 30000, multiset(tokens)[t] as real;
      k in v.weights && v.weights[k] * (f + 1.5) == f * 2.5
  {
    hide TokenWeight, BucketWeight, Distinct, WellFormed;
    var k := crc(t) % 30000;
    assert Bucket(crc, t) == k;
    assert t in Distinct(tokens);
    assert WeightAt(v, k) == BucketWeight(crc, tokens, Distinct(tokens), k);
    AloneInBucket(crc, tokens, Distinct(tokens), t);
    TokenWeightIs(tokens, t);
  }

  /** A vector has a bucket for each token, and no others, each once. */
  lemma BucketsOfTokens(crc: string -> nat, tokens: seq<string>, v: Sparse)
    requires IsVector(crc, tokens, v)
    ensures AllDistinct(v.keys)
    ensures forall k :: k in v.keys <==> exists t :: t in tokens && crc(t) % 30000 == k
  {
    hide BucketWeight, Distinct;
    forall k ensures k in v.keys <==> exists t :: t in tokens && crc(t) % 30000 == k {
      if k in v.keys {
        var t :| t in Distinct(tokens) && Bucket(crc, t) == k;
      }
      if t :| t in tokens && crc(t) % 30000 == k {
        assert t in Distinct(tokens) && Bucket(crc, t) == k;
      }
    }
  }

  function Repeated(t: string, f: nat): (tokens: seq<string>)
    ensures |tokens| == f
  {
    seq(f, _ => t)
  }

  /** One token f times over: one bucket, of exactly that weight. */
  lemma RepeatedToken(crc: string -> nat, t: string, f: nat, v: Sparse)
    requires f > 0 && IsVector(crc, Repeated(t, f), v)
    ensures v.keys == [crc(t) % 30000]
    ensures crc(t) % 30000 in v.weights && v.weights[crc(t) % 30000] * (f as real + 1.5) == f as real * 2.5
  {
    hide IsVector;
    var tokens := Repeated(t, f);
    assert tokens[0] == t;
    MultiplicityOfRepeated(t, f);
    BucketsOfTokens(crc, tokens, v);
    BucketOfToken(crc, tokens, v, t);
    assert forall k :: k in v.keys <==> k == crc(t) % 30000;
    OneKey(v.keys, crc(t) % 30000);
  }

  lemma OneKey(keys: seq<nat>, k: nat)
    requires AllDistinct(keys) && forall x :: x in keys <==> x == k
    ensures keys == [k]
  {
    assert k in keys;
    assert forall i :: 0 <= i < |keys| ==> keys[i] in keys;
    NotTwice(keys, k);
  }

  lemma NotTwice(keys: seq<nat>, k: nat)
    requires AllDistinct(keys)
    ensures |keys| > 1 ==> keys[0] != k || keys[1] != k
  {
  }

  lemma {:induction false} MultiplicityOfRepeated(t: string, f: nat)
    ensures multiset(Repeated(t, f))[t] == f
  {
    if f > 0 {
      MultiplicityOfRepeated(t, f - 1);
      assert Repeated(t, f) == Repeated(t, f - 1) + [t];
    }
  }

  // ---------------------------------------------------------------- a text of one token

  predicate IsToken(t: string) {
    t != "" && !IsStopword(t) && forall i :: 0 <= i < |t| ==> IsTokenChar(t[i])
  }

  lemma {:induction false} TokenIsLower(t: string)
    requires forall i :: 0 <= i < |t| ==> IsTokenChar(t[i])
    ensures Lower(t) == t
  {
    if t != "" {
      TokenIsLower(t[1..]);
    }
  }

  lemma TokenAlone(t: string)
    requires IsToken(t)
    ensures Tokenize(t) == [t] && Lower(t) == t
  {
    TokenIsLower(t);
    hide Lower, IsTokenChar, IsStopword, Runs;
    OneRun(t);
    DropOne(t, []);
    assert [t] + [] == [t];
  }

  lemma BlankAlone()
    ensures Lower(" ") == " " && Tokenize(" ") == []
    ensures forall b :: !CutsToken(" ", b) && !CutsToken(b, " ")
  {
    LowerSpace(" ");
  }

  lemma TokenThenMore(t: string, more: string)
    requires IsToken(t)
    ensures Tokenize(t + " " + more) == [t] + Tokenize(more)
  {
    hide *;
    BlankAlone();
    TokenAlone(t);
    TokenizeConcat(t, " ");
    LowerConcat(t, " ");
    EndsInBlank(t, Lower(more));
    TokenizeConcat(t + " ", more);
  }

  lemma EndsInBlank(t: string, b: string)
    ensures !CutsToken(t + " ", b)
  {
  }

  lemma {:induction false} RepeatedText(t: string, f: nat)
    requires IsToken(t)
    ensures Tokenize(Join(" ", Repeated(t, f))) == Repeated(t, f)
  {
    hide IsToken, Tokenize;
    if f == 0 {
      assert Tokenize("") == [] by { NoToken(); }
    } else if f == 1 {
      TokenAlone(t);
      assert Repeated(t, 1) == [t];
    } else {
      RepeatedText(t, f - 1);
      assert Repeated(t, f)[1..] == Repeated(t, f - 1);
      TokenThenMore(t, Join(" ", Repeated(t, f - 1)));
      assert Repeated(t, f) == [t] + Repeated(t, f - 1);
    }
  }

  lemma NoToken()
    ensures Tokenize("") == []
  {
  }

  /** So a text that repeats one word has a vector with one bucket, which tells how often. */
  lemma RepeatedWord(crc: string -> nat, t: string, f: nat, v: Sparse)
    requires IsToken(t) && f > 0
    requires var tokens := Tokenize(Join(" ", Repeated(t, f))); Accumulated(crc, tokens, Distinct(tokens), v)
    ensures v.keys == [crc(t) % 30000] && crc(t) % 30000 in v.weights
    ensures v.weights[crc(t) % 30000] * (f as real + 1.5) == f as real * 2.5
  {
    hide *;
    RepeatedText(t, f);
    VectorIs(crc, Repeated(t, f), v);
    RepeatedToken(crc, t, f, v);
  }

  lemma VectorIs(crc: string -> nat, tokens: seq<string>, v: Sparse)
    requires Accumulated(crc, tokens, Distinct(tokens), v)
    ensures IsVector(crc, tokens, v)
  {
  }
}
