/** Strings as the Python source sees them: whitespace, find, strip, split and join. */
module Text {

  datatype Option<+T> = None | Some(value: T) {
    function GetOr(default: T): T {
      if Some? then value else default
    }
  }

  // The characters for which `str.isspace()` holds; `\s`, `strip` and `split` use the same set.
  predicate IsSpace(c: char) {
    var n := c as int;
    || 9 <= n <= 13
    || 28 <= n <= 32
    || n == 0x85 || n == 0xA0 || n == 0x1680
    || 0x2000 <= n <= 0x200A
    || n == 0x2028 || n == 0x2029 || n == 0x202F || n == 0x205F || n == 0x3000
  }

  predicate AllSpace(s: string) {
    forall i :: 0 <= i < |s| ==> IsSpace(s[i])
  }

  function Min(a: int, b: int): int {
    if a < b then a else b
  }

  function Max(a: int, b: int): int {
    if a < b then b else a
  }

  function Abs(x: real): real {
    if x < 0.0 then -x else x
  }

  /** The first position of `c` at or after `i`, or the length of `s` when there is none. */
  function IndexOf(s: string, c: char, i: nat): (r: nat)
    requires i <= |s|
    ensures i <= r <= |s|
    ensures r < |s| ==> s[r] == c
    ensures forall k :: i <= k < r ==> s[k] != c
    decreases |s| - i
  {
    if i == |s| || s[i] == c then i else IndexOf(s, c, i + 1)
  }

  lemma IndexOfIs(s: string, c: char, i: nat, r: nat)
    requires i <= r <= |s|
    requires r < |s| ==> s[r] == c
    requires forall k :: i <= k < r ==> s[k] != c
    ensures IndexOf(s, c, i) == r
  {
  }

  lemma IndexOfStable(s: string, more: string, c: char, i: nat)
    requires i <= |s|
    ensures IndexOf(s, c, i) < |s| ==> IndexOf(s + more, c, i) == IndexOf(s, c, i)
    ensures IndexOf(s + more, c, i) < |s| ==> IndexOf(s, c, i) == IndexOf(s + more, c, i)
  {
    if IndexOf(s, c, i) < |s| {
      IndexOfIs(s + more, c, i, IndexOf(s, c, i));
    }
    if IndexOf(s + more, c, i) < |s| {
      var r := IndexOf(s + more, c, i);
      assert forall k :: i <= k < r ==> s[k] == (s + more)[k];
      IndexOfIs(s, c, i, r);
    }
  }

  /** The last position of `c` before `n`, or `n` when there is none. */
  function LastIndexOf(s: string, c: char, n: nat): (r: nat)
    requires n <= |s|
    ensures r <= n
    ensures r < n ==> s[r] == c && forall k :: r < k < n ==> s[k] != c
    ensures r == n ==> forall k :: 0 <= k < n ==> s[k] != c
  {
    if n == 0 then 0
    else if s[n - 1] == c then n - 1
    else
      var r := LastIndexOf(s, c, n - 1);
      if r == n - 1 then n else r
  }

  /** The first position at or after `i` that is not whitespace, or the length of `s`. */
  function SkipSpace(s: string, i: nat): (r: nat)
    requires i <= |s|
    ensures i <= r <= |s|
    ensures r < |s| ==> !IsSpace(s[r])
    ensures forall k :: i <= k < r ==> IsSpace(s[k])
    decreases |s| - i
  {
    if i == |s| || !IsSpace(s[i]) then i else SkipSpace(s, i + 1)
  }

  /** Looking only at a slice that contains the last occurrence finds the same one. */
  lemma {:induction false} LastIndexOfSlice(s: string, c: char, a: nat, n: nat)
    requires a <= n <= |s|
    ensures var r := LastIndexOf(s[a..n], c, n - a);
      if r < n - a then LastIndexOf(s, c, n) == a + r
      else LastIndexOf(s, c, n) < a || LastIndexOf(s, c, n) == n
    decreases n - a
  {
    if a < n {
      LastIndexOfSlice(s, c, a, n - 1);
      LastIndexOfShorter(s[a..n], s[a..n - 1], c, n - 1 - a);
    }
  }

  lemma {:induction false} LastIndexOfShorter(s: string, t: string, c: char, n: nat)
    requires n <= |t| && t <= s
    ensures LastIndexOf(s, c, n) == LastIndexOf(t, c, n)
  {
    if n > 0 {
      LastIndexOfShorter(s, t, c, n - 1);
    }
  }

  lemma SkipSpaceIs(s: string, i: nat, r: nat)
    requires i <= r <= |s|
    requires r < |s| ==> !IsSpace(s[r])
    requires forall k :: i <= k < r ==> IsSpace(s[k])
    ensures SkipSpace(s, i) == r
  {
  }

  lemma SkipSpaceStable(s: string, more: string, i: nat)
    requires i <= |s|
    ensures SkipSpace(s, i) < |s| ==> SkipSpace(s + more, i) == SkipSpace(s, i)
    ensures SkipSpace(s + more, i) < |s| ==> SkipSpace(s, i) == SkipSpace(s + more, i)
  {
    if SkipSpace(s, i) < |s| {
      SkipSpaceIs(s + more, i, SkipSpace(s, i));
    }
    if SkipSpace(s + more, i) < |s| {
      var r := SkipSpace(s + more, i);
      assert forall k :: i <= k < r ==> s[k] == (s + more)[k];
      SkipSpaceIs(s, i, r);
    }
  }

  lemma IndexOfSlice(s: string, c: char, i: nat, j: nat, k: nat)
    requires i <= j <= |s| && k <= j
    requires IndexOf(s, c, i) >= j
    ensures k + IndexOf(s[k..], c, j - k) == IndexOf(s, c, i)
  {
    var r := IndexOf(s, c, i);
    hide IndexOf;
    forall n | j - k <= n < r - k ensures s[k..][n] != c {
      assert s[k..][n] == s[k + n];
    }
    IndexOfIs(s[k..], c, j - k, r - k);
  }

  lemma SkipSpaceSlice(s: string, i: nat, k: nat)
    requires k <= i <= |s|
    ensures k + SkipSpace(s[k..], i - k) == SkipSpace(s, i)
  {
    var r := SkipSpace(s, i);
    hide SkipSpace, IsSpace;
    forall n | i - k <= n < r - k ensures IsSpace(s[k..][n]) {
      assert s[k..][n] == s[k + n];
    }
    SkipSpaceIs(s[k..], i - k, r - k);
  }

  /** The first whitespace position at or after `i`, or the length of `s`. */
  function SkipWord(s: string, i: nat): (r: nat)
    requires i <= |s|
    ensures i <= r <= |s|
    ensures r < |s| ==> IsSpace(s[r])
    ensures forall k :: i <= k < r ==> !IsSpace(s[k])
    decreases |s| - i
  {
    if i == |s| || IsSpace(s[i]) then i else SkipWord(s, i + 1)
  }

  function TrimEnd(s: string): (r: string)
    ensures r <= s
    ensures AllSpace(s[|r|..])
    ensures r != "" ==> !IsSpace(r[|r| - 1])
  {
    if s != "" && IsSpace(s[|s| - 1]) then TrimEnd(s[..|s| - 1]) else s
  }

  function Strip(s: string): string {
    TrimEnd(s[SkipSpace(s, 0)..])
  }

  predicate VisibleEnds(s: string) {
    s == "" || (!IsSpace(s[0]) && !IsSpace(s[|s| - 1]))
  }

  lemma TrimEndIs(s: string, r: string)
    requires r <= s && AllSpace(s[|r|..]) && (r != "" ==> !IsSpace(r[|r| - 1]))
    ensures TrimEnd(s) == r
  {
    hide IsSpace;
    var t := TrimEnd(s);
  }

  /** `strip` takes whitespace off both ends, and all of it. */
  lemma StripPadded(before: string, s: string, after: string)
    requires AllSpace(before) && AllSpace(after) && VisibleEnds(s)
    ensures Strip(before + s + after) == s
  {
    var t := before + s + after;
    if s == "" {
      SkipSpaceIs(t, 0, |t|);
      TrimEndIs("", "");
    } else {
      SkipSpaceIs(t, 0, |before|);
      hide IsSpace;
      assert t[|before|..] == s + after;
      assert (s + after)[|s|..] == after;
      TrimEndIs(s + after, s);
    }
  }

  function Flatten<T>(parts: seq<seq<T>>): seq<T> {
    if parts == [] then [] else parts[0] + Flatten(parts[1..])
  }

  lemma {:induction false} FlattenConcat<T>(a: seq<seq<T>>, b: seq<seq<T>>)
    ensures Flatten(a + b) == Flatten(a) + Flatten(b)
  {
    if a == [] {
      assert a + b == b;
    } else {
      assert (a + b)[1..] == a[1..] + b;
      FlattenConcat(a[1..], b);
    }
  }

  /** Each value of `s` once, where it stands first. */
  function FirstOccurrences<T(==)>(s: seq<T>): seq<T> {
    if s == [] then [] else
    var n := |s| - 1;
    FirstOccurrences(s[..n]) + (if s[n] in s[..n] then [] else [s[n]])
  }

  predicate AllDistinct<T(==)>(s: seq<T>) {
    forall i, j :: 0 <= i < j < |s| ==> s[i] != s[j]
  }

  lemma {:induction false} FirstOccurrencesDistinct<T>(s: seq<T>)
    ensures forall x :: x in FirstOccurrences(s) <==> x in s
    ensures AllDistinct(FirstOccurrences(s))
  {
    if s != [] {
      var n := |s| - 1;
      assert s == s[..n] + [s[n]];
      FirstOccurrencesDistinct(s[..n]);
    }
  }

  function Join(sep: string, parts: seq<string>): string {
    if parts == [] then ""
    else if |parts| == 1 then parts[0]
    else parts[0] + sep + Join(sep, parts[1..])
  }

  /** `s.split()`: the maximal runs of non-whitespace, in order. */
  function Words(s: string): seq<string>
    decreases |s|
  {
    if s == "" then []
    else if IsSpace(s[0]) then Words(s[1..])
    else [s[..SkipWord(s, 0)]] + Words(s[SkipWord(s, 0)..])
  }

  lemma {:induction false} WordsOfSpace(s: string)
    requires AllSpace(s)
    ensures Words(s) == []
    decreases |s|
  {
    if s != "" {
      WordsOfSpace(s[1..]);
    }
  }

  /** A whitespace character is a word boundary wherever it stands. */
  lemma {:induction false} WordsAround(a: string, c: char, b: string)
    requires IsSpace(c)
    ensures Words(a + [c] + b) == Words(a) + Words(b)
    decreases |a|
  {
    var s := a + [c] + b;
    if a == "" {
      assert s[1..] == b;
    } else if IsSpace(a[0]) {
      assert s[1..] == a[1..] + [c] + b;
      WordsAround(a[1..], c, b);
    } else {
      var k := SkipWord(a, 0);
      assert s[k] == if k < |a| then a[k] else c;
      assert SkipWord(s, 0) == k;
      assert s[..k] == a[..k];
      assert s[k..] == a[k..] + [c] + b;
      WordsAround(a[k..], c, b);
    }
  }

  lemma WordsGap(a: string, gap: string, b: string)
    requires AllSpace(gap)
    requires gap != "" || a == "" || b == ""
    ensures Words(a + gap + b) == Words(a) + Words(b)
  {
    if gap == "" {
      assert a + gap + b == a + b;
      assert a + "" == a && "" + b == b;
    } else {
      assert a + gap + b == a + [gap[0]] + (gap[1..] + b);
      WordsAround(a, gap[0], gap[1..] + b);
      LeadingSpace(gap[1..], b);
    }
  }

  lemma {:induction false} LeadingSpace(gap: string, b: string)
    requires AllSpace(gap)
    ensures Words(gap + b) == Words(b)
    decreases |gap|
  {
    if gap == "" {
      assert gap + b == b;
    } else {
      assert (gap + b)[1..] == gap[1..] + b;
      LeadingSpace(gap[1..], b);
    }
  }

  lemma {:induction false} WordsNonBlank(s: string)
    requires !AllSpace(s)
    ensures Words(s) != []
    decreases |s|
  {
    if IsSpace(s[0]) {
      var i :| 0 <= i < |s| && !IsSpace(s[i]);
      assert !IsSpace(s[1..][i - 1]);
      WordsNonBlank(s[1..]);
    }
  }

  /** The words of all the pieces, in order. */
  function AllWords(pieces: seq<string>): seq<string> {
    if pieces == [] then [] else Words(pieces[0]) + AllWords(pieces[1..])
  }

  lemma {:induction false} AllWordsConcat(a: seq<string>, b: seq<string>)
    ensures AllWords(a + b) == AllWords(a) + AllWords(b)
  {
    hide Words;
    if a == [] {
      assert a + b == b;
    } else {
      assert (a + b)[1..] == a[1..] + b;
      AllWordsConcat(a[1..], b);
    }
  }

  lemma {:induction false} WordsOfJoin(sep: string, parts: seq<string>)
    requires sep != "" && AllSpace(sep)
    ensures Words(Join(sep, parts)) == AllWords(parts)
  {
    hide IsSpace, AllSpace;
    if parts == [] {
      assert Words("") == [];
    } else {
      hide Words;
      WordsOfJoin(sep, parts[1..]);
      if |parts| > 1 {
        WordsGap(parts[0], sep, Join(sep, parts[1..]));
      }
    }
  }

  /** Appending text that starts with whitespace only appends its words. */
  lemma WordsThenSpace(a: string, s: string)
    requires s == "" || IsSpace(s[0])
    ensures Words(a + s) == Words(a) + Words(s)
  {
    if s == "" {
      assert a + s == a;
    } else {
      assert a + s == a + [s[0]] + s[1..];
      WordsAround(a, s[0], s[1..]);
    }
  }
}
