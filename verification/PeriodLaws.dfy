/** What the period patterns read in a text, said of the way it is made up. */
module PeriodLaws {
  import opened Text
  import opened Numerals
  import opened KpiSeries

  // ---------------------------------------------------------------- years

  // A letter, a digit or an underscore.
  predicate InWord(c: char) {
    'a' <= c <= 'z' || 'A' <= c <= 'Z' || '0' <= c <= '9' || c == '_'
  }

  predicate YearDigits(year: string) {
    2 <= |year| <= 4 && forall k :: 0 <= k < |year| ==> '0' <= year[k] <= '9'
  }

  /** Whitespace, perhaps an apostrophe and more whitespace, the digits of a year, and the end of the word. */
  predicate YearText(s: string, gap: string, year: string, rest: string) {
    && s == gap + year + rest && YearDigits(year)
    && (rest == "" || !InWord(rest[0]))
  }

  predicate YearGap(gap: string, quoted: bool, n: nat) {
    if quoted then n < |gap| && gap[n] == '\'' && AllSpace(gap[..n]) && AllSpace(gap[n + 1..])
    else AllSpace(gap)
  }

  ghost predicate YearRead(s: string, year: string) {
    exists gap, rest, quoted, n :: YearText(s, gap, year, rest) && YearGap(gap, quoted, n)
  }

  lemma DigitIsPlain(c: char)
    requires '0' <= c <= '9'
    ensures IsDigit(c) && !IsSpace(c) && c != '\'' && InWord(c)
  {
  }

  lemma WordChars(c: char)
    ensures IsWordChar(c) <==> InWord(c)
  {
  }

  lemma ApostropheIsVisible()
    ensures !IsSpace('\'')
  {
  }

  lemma GapIsSkipped(gap: string, tail: string, quoted: bool, n: nat)
    requires YearGap(gap, quoted, n) && tail != "" && !IsSpace(tail[0]) && tail[0] != '\''
    ensures var s := gap + tail; var a := SkipSpace(s, 0);
      if quoted then a == n && n < |s| && s[n] == '\'' && SkipSpace(s, n + 1) == |gap|
      else a == |gap| && s[a] != '\''
  {
    ApostropheIsVisible();
    hide IsSpace, SkipSpace;
    var s := gap + tail;
    assert s[|gap|] == tail[0];
    assert forall k :: 0 <= k < |gap| ==> s[k] == gap[k];
    if quoted {
      assert forall k :: 0 <= k < n ==> gap[k] == gap[..n][k];
      assert forall k :: n + 1 <= k < |gap| ==> gap[k] == gap[n + 1..][k - n - 1];
      SkipSpaceIs(s, 0, n);
      SkipSpaceIs(s, n + 1, |gap|);
    } else {
      SkipSpaceIs(s, 0, |gap|);
    }
  }

  lemma DigitsAreSkipped(gap: string, year: string, rest: string)
    requires YearDigits(year) && (rest == "" || !InWord(rest[0]))
    ensures var s, b := gap + year + rest, |gap|; var e := b + |year|;
      DigitsEnd(s, b) == e && s[b..e] == year && (e == |s| || !IsWordChar(s[e]))
  {
    var s, b := gap + year + rest, |gap|;
    var e := b + |year|;
    assert s[b..e] == year && forall k :: b <= k < e ==> s[k] == year[k - b];
    if rest != "" {
      assert s[e] == rest[0];
      WordChars(rest[0]);
      NotInWord(s, e);
    }
    hide IsWordChar, InWord, DigitsEnd;
    DigitsEndIs(s, b, e);
  }

  lemma YearIsRead(s: string, gap: string, year: string, rest: string, quoted: bool, n: nat)
    requires YearText(s, gap, year, rest) && YearGap(gap, quoted, n)
    ensures YearAt(s, 0) == Some(year)
  {
    DigitIsPlain(year[0]);
    DigitsAreSkipped(gap, year, rest);
    hide IsSpace, IsWordChar, InWord, YearGap, SkipSpace, DigitsEnd, YearDigits;
    assert s == gap + (year + rest) && (year + rest)[0] == year[0];
    GapIsSkipped(gap, year + rest, quoted, n);
    assert 2 <= |year| <= 4 by { YearLength(year); }
  }

  lemma YearLength(year: string)
    requires YearDigits(year)
    ensures 2 <= |year| <= 4
  {
  }

  lemma NotInWord(s: string, e: nat)
    requires e <= |s| && (e == |s| || !IsWordChar(s[e]))
    ensures e < |s| ==> !IsDigit(s[e])
  {
  }

  lemma ReadYearIs(s: string)
    requires YearAt(s, 0).Some?
    ensures YearRead(s, YearAt(s, 0).value)
  {
    var a := SkipSpace(s, 0);
    var quoted := a < |s| && s[a] == '\'';
    var b := if quoted then SkipSpace(s, a + 1) else a;
    var e := DigitsEnd(s, b);
    ReadText(s, b, e);
    ReadGap(s, a, quoted, b);
    hide IsSpace, IsWordChar, SkipSpace, DigitsEnd, YearText, YearGap, YearRead, IsDigit;
    YearGiven(s, s[..b], s[b..e], s[e..], quoted, a);
  }

  lemma YearGiven(s: string, gap: string, year: string, rest: string, quoted: bool, n: nat)
    requires YearText(s, gap, year, rest) && YearGap(gap, quoted, n)
    ensures YearRead(s, year)
  {
    hide YearText, YearGap;
  }

  lemma ReadText(s: string, b: nat, e: nat)
    requires b <= e <= |s| && 2 <= e - b <= 4 && (e == |s| || !IsWordChar(s[e]))
    requires forall k :: b <= k < e ==> IsDigit(s[k])
    ensures YearText(s, s[..b], s[b..e], s[e..])
  {
    if e < |s| {
      WordChars(s[e]);
    }
    hide IsWordChar, InWord;
    assert s == s[..b] + s[b..e] + s[e..];
    assert forall k :: 0 <= k < e - b ==> s[b..e][k] == s[b + k];
  }

  lemma ReadGap(s: string, a: nat, quoted: bool, b: nat)
    requires a <= b <= |s| && (forall k :: 0 <= k < a ==> IsSpace(s[k]))
    requires if quoted then a < b && s[a] == '\'' && (forall k :: a + 1 <= k < b ==> IsSpace(s[k])) else a == b
    ensures YearGap(s[..b], quoted, a)
  {
    hide IsSpace;
    var gap := s[..b];
    assert forall k :: 0 <= k < b ==> gap[k] == s[k];
    if quoted {
      var behind := gap[a + 1..];
      assert forall k :: 0 <= k < |behind| ==> behind[k] == s[a + 1 + k];
      assert gap[..a] == s[..a];
    }
  }

  /** The year digits read at a place are those that stand there in one of these ways. */
  lemma YearExact(s: string, year: string)
    ensures YearAt(s, 0) == Some(year) <==> YearRead(s, year)
  {
    hide YearAt, YearText, YearGap;
    if YearAt(s, 0) == Some(year) {
      ReadYearIs(s);
    }
    if gap, rest, quoted, n :| YearText(s, gap, year, rest) && YearGap(gap, quoted, n) {
      YearIsRead(s, gap, year, rest, quoted, n);
    }
  }

  lemma YearFrom(s: string, i: nat)
    requires i <= |s|
    ensures YearAt(s, i) == YearAt(s[i..], 0)
  {
    hide SkipSpace, DigitsEnd, YearAt, IsDigit, IsSpace;
    var a := SkipSpace(s, i);
    var b := if a < |s| && s[a] == '\'' then SkipSpace(s, a + 1) else a;
    PlacesFrom(s, i, a, b);
    YearFromPlaces(s, i, a, b, DigitsEnd(s, b));
  }

  lemma PlacesFrom(s: string, i: nat, a: nat, b: nat)
    requires i <= |s| && a == SkipSpace(s, i) && b == if a < |s| && s[a] == '\'' then SkipSpace(s, a + 1) else a
    ensures var t := s[i..];
      && SkipSpace(t, 0) == a - i && DigitsEnd(t, b - i) == DigitsEnd(s, b) - i
      && (a < |s| ==> t[a - i] == s[a])
      && (a < |s| && s[a] == '\'' ==> SkipSpace(t, a + 1 - i) == b - i)
  {
    hide SkipSpace, DigitsEnd, IsSpace, IsDigit;
    SkipSpaceSlice(s, i, i);
    if a < |s| && s[a] == '\'' {
      SkipSpaceSlice(s, a + 1, i);
    }
    DigitsEndSlice(s, b, i);
    SliceAt(s, i, a);
  }

  // What a year is read from: its digits from `b` to `e`.
  function YearOf(s: string, b: nat, e: nat): Option<string>
    requires b <= e <= |s|
  {
    if 2 <= e - b <= 4 && (e == |s| || !IsWordChar(s[e])) then Some(s[b..e]) else None
  }

  lemma YearWhen(s: string, i: nat, a: nat, b: nat, e: nat)
    requires i <= a <= b <= e <= |s| && b == (if a < |s| && s[a] == '\'' then SkipSpace(s, a + 1) else a)
    requires SkipSpace(s, i) == a && DigitsEnd(s, b) == e
    ensures YearAt(s, i) == YearOf(s, b, e)
  {
    hide SkipSpace, DigitsEnd, IsWordChar;
  }

  lemma YearOfSlice(s: string, i: nat, b: nat, e: nat)
    requires i <= b <= e <= |s|
    ensures YearOf(s[i..], b - i, e - i) == YearOf(s, b, e)
  {
    hide IsWordChar;
    SliceAt(s, i, e);
    assert s[i..][b - i..e - i] == s[b..e];
  }

  lemma YearFromPlaces(s: string, i: nat, a: nat, b: nat, e: nat)
    requires i <= a <= b <= e <= |s| && b == (if a < |s| && s[a] == '\'' then SkipSpace(s, a + 1) else a)
    requires SkipSpace(s, i) == a && DigitsEnd(s, b) == e
    requires var t := s[i..];
      && SkipSpace(t, 0) == a - i && DigitsEnd(t, b - i) == e - i
      && (a < |s| ==> t[a - i] == s[a])
      && (a < |s| && s[a] == '\'' ==> SkipSpace(t, a + 1 - i) == b - i)
    ensures YearAt(s, i) == YearAt(s[i..], 0)
  {
    hide *;
    YearWhen(s, i, a, b, e);
    YearWhen(s[i..], 0, a - i, b - i, e - i);
    YearOfSlice(s, i, b, e);
  }

  lemma SliceAt(s: string, i: nat, k: nat)
    requires i <= k <= |s|
    ensures k < |s| ==> s[i..][k - i] == s[k]
  {
  }

  lemma DigitsEndSlice(s: string, b: nat, i: nat)
    requires i <= b <= |s|
    ensures DigitsEnd(s[i..], b - i) == DigitsEnd(s, b) - i
  {
    var t, e := s[i..], DigitsEnd(s, b);
    hide DigitsEnd, IsDigit;
    assert forall k :: 0 <= k < |t| ==> t[k] == s[i + k];
    DigitsEndIs(t, b - i, e - i);
  }

  // ---------------------------------------------------------------- labels

  /** A Q of either case at the start of a word, a quarter, and a year. */
  ghost predicate QuarterHere(s: string, k: int, quarter: int, year: string) {
    && 0 <= k < |s| - 1
    && (k == 0 || !InWord(s[k - 1]))
    && (s[k] == 'Q' || s[k] == 'q')
    && 1 <= quarter <= 4 && s[k + 1] as int == '0' as int + quarter
    && YearRead(s[k + 2..], year)
  }

  /** FY, in letters of either case, at the start of a word, and a year. */
  ghost predicate FiscalYearHere(s: string, k: int, year: string) {
    && 0 <= k < |s| - 1
    && (k == 0 || !InWord(s[k - 1]))
    && (s[k] == 'F' || s[k] == 'f') && (s[k + 1] == 'Y' || s[k + 1] == 'y')
    && YearRead(s[k + 2..], year)
  }

  ghost predicate FirstQuarter(s: string, i: int, k: int, quarter: int, year: string) {
    && i <= k && QuarterHere(s, k, quarter, year)
    && forall j, q, y :: i <= j < k ==> !QuarterHere(s, j, q, y)
  }

  ghost predicate FirstFiscal(s: string, i: int, k: int, year: string) {
    && i <= k && FiscalYearHere(s, k, year)
    && forall j, y :: i <= j < k ==> !FiscalYearHere(s, j, y)
  }

  lemma StartExact(s: string, k: nat)
    requires k <= |s|
    ensures StartsWord(s, k) <==> k == 0 || !InWord(s[k - 1])
  {
    if k > 0 {
      WordChars(s[k - 1]);
    }
  }

  lemma QuarterDigit(c: char, q: int)
    requires 1 <= q <= 4 && c as int == '0' as int + q
    ensures '1' <= c <= '4' && Value([c]) == q
  {
    assert [c][..0] == "";
  }

  lemma DigitOfQuarter(c: char)
    requires '1' <= c <= '4'
    ensures 1 <= Value([c]) <= 4 && c as int == '0' as int + Value([c])
  {
    assert [c][..0] == "";
  }

  // The pattern at one place.
  lemma QuarterAtPlace(s: string, k: nat, q: int, y: string)
    requires k + 1 < |s|
    ensures QuarterHere(s, k, q, y) <==>
      && StartsWord(s, k) && (s[k] == 'Q' || s[k] == 'q') && '1' <= s[k + 1] <= '4'
      && YearAt(s, k + 2) == Some(y) && q == Value([s[k + 1]])
  {
    hide YearAt, YearRead, Value, StartsWord, InWord;
    StartExact(s, k);
    YearFrom(s, k + 2);
    YearExact(s[k + 2..], y);
    if 1 <= q <= 4 && s[k + 1] as int == '0' as int + q {
      QuarterDigit(s[k + 1], q);
    }
    if '1' <= s[k + 1] <= '4' {
      DigitOfQuarter(s[k + 1]);
    }
  }

  lemma FiscalAtPlace(s: string, k: nat, y: string)
    requires k + 1 < |s|
    ensures FiscalYearHere(s, k, y) <==>
      && StartsWord(s, k) && (s[k] == 'F' || s[k] == 'f') && (s[k + 1] == 'Y' || s[k + 1] == 'y')
      && YearAt(s, k + 2) == Some(y)
  {
    hide YearAt, YearRead, StartsWord, InWord;
    StartExact(s, k);
    YearFrom(s, k + 2);
    YearExact(s[k + 2..], y);
  }

  // What the scan looks for at one place.
  function QuarterAt(s: string, k: nat): Option<(int, string)>
    requires k + 1 < |s|
  {
    if StartsWord(s, k) && (s[k] == 'Q' || s[k] == 'q') && '1' <= s[k + 1] <= '4' && YearAt(s, k + 2).Some?
    then Some((Value([s[k + 1]]), YearAt(s, k + 2).value))
    else None
  }

  function FiscalAt(s: string, k: nat): Option<string>
    requires k + 1 < |s|
  {
    if StartsWord(s, k) && (s[k] == 'F' || s[k] == 'f') && (s[k + 1] == 'Y' || s[k + 1] == 'y') then YearAt(s, k + 2)
    else None
  }

  lemma QuarterStep(s: string, i: nat)
    requires i <= |s|
    ensures FindQuarterYear(s, i) ==
      if i + 1 >= |s| then None else if QuarterAt(s, i).Some? then QuarterAt(s, i) else FindQuarterYear(s, i + 1)
  {
    hide YearAt, Value, StartsWord;
  }

  lemma FiscalStep(s: string, i: nat)
    requires i <= |s|
    ensures FindFiscalYear(s, i) ==
      if i + 1 >= |s| then None else if FiscalAt(s, i).Some? then FiscalAt(s, i) else FindFiscalYear(s, i + 1)
  {
    hide YearAt, StartsWord;
  }

  lemma QuarterIs(s: string, k: nat, q: int, y: string)
    requires k + 1 < |s|
    ensures QuarterHere(s, k, q, y) <==> QuarterAt(s, k) == Some((q, y))
  {
    hide YearAt, Value, StartsWord, QuarterHere;
    QuarterAtPlace(s, k, q, y);
  }

  lemma FiscalIs(s: string, k: nat, y: string)
    requires k + 1 < |s|
    ensures FiscalYearHere(s, k, y) <==> FiscalAt(s, k) == Some(y)
  {
    hide YearAt, StartsWord, FiscalYearHere;
    FiscalAtPlace(s, k, y);
  }

  /** The first quarter label of a text is read, with its quarter and its year digits. */
  lemma {:induction false} QuarterExact(s: string, i: nat, q: int, y: string)
    requires i <= |s|
    ensures FindQuarterYear(s, i) == Some((q, y)) <==> exists k :: FirstQuarter(s, i, k, q, y)
    decreases |s| - i
  {
    hide *;
    QuarterStep(s, i);
    if i + 1 >= |s| {
      NoQuarterAtEnd(s, i, q, y);
    } else {
      QuarterExact(s, i + 1, q, y);
      FirstQuarterFrom(s, i, i + 1, q, y);
    }
  }

  lemma NoQuarterAtEnd(s: string, i: nat, q: int, y: string)
    requires i + 1 >= |s|
    ensures !exists k :: FirstQuarter(s, i, k, q, y)
  {
    hide YearRead, InWord;
  }

  // The first label from one place on is there or it is the first one from the next place on.
  lemma FirstQuarterFrom(s: string, i: nat, n: nat, q: int, y: string)
    requires n == i + 1 < |s|
    ensures (exists k :: FirstQuarter(s, i, k, q, y)) <==>
      if QuarterAt(s, i).Some? then QuarterAt(s, i) == Some((q, y)) else exists k :: FirstQuarter(s, n, k, q, y)
  {
    hide QuarterHere, QuarterAt;
    forall q', y' ensures QuarterHere(s, i, q', y') <==> QuarterAt(s, i) == Some((q', y')) {
      QuarterIs(s, i, q', y');
    }
    if QuarterAt(s, i).Some? {
      var m := QuarterAt(s, i).value;
      assert QuarterHere(s, i, m.0, m.1);
      assert QuarterAt(s, i) == Some((q, y)) ==> FirstQuarter(s, i, i, q, y);
    } else {
      assert forall q', y' :: !QuarterHere(s, i, q', y');
      assert forall k :: FirstQuarter(s, i, k, q, y) <==> FirstQuarter(s, n, k, q, y);
    }
  }

  /** So is the first fiscal year label. */
  lemma {:induction false} FiscalExact(s: string, i: nat, y: string)
    requires i <= |s|
    ensures FindFiscalYear(s, i) == Some(y) <==> exists k :: FirstFiscal(s, i, k, y)
    decreases |s| - i
  {
    hide *;
    FiscalStep(s, i);
    if i + 1 >= |s| {
      NoFiscalAtEnd(s, i, y);
    } else {
      FiscalExact(s, i + 1, y);
      FirstFiscalFrom(s, i, i + 1, y);
    }
  }

  lemma NoFiscalAtEnd(s: string, i: nat, y: string)
    requires i + 1 >= |s|
    ensures !exists k :: FirstFiscal(s, i, k, y)
  {
    hide YearRead, InWord;
  }

  lemma FirstFiscalFrom(s: string, i: nat, n: nat, y: string)
    requires n == i + 1 < |s|
    ensures (exists k :: FirstFiscal(s, i, k, y)) <==>
      if FiscalAt(s, i).Some? then FiscalAt(s, i) == Some(y) else exists k :: FirstFiscal(s, n, k, y)
  {
    hide FiscalYearHere, FiscalAt;
    forall y' ensures FiscalYearHere(s, i, y') <==> FiscalAt(s, i) == Some(y') {
      FiscalIs(s, i, y');
    }
    if FiscalAt(s, i).Some? {
      assert FiscalYearHere(s, i, FiscalAt(s, i).value);
      assert FiscalAt(s, i) == Some(y) ==> FirstFiscal(s, i, i, y);
    } else {
      assert forall y' :: !FiscalYearHere(s, i, y');
      assert forall k :: FirstFiscal(s, i, k, y) <==> FirstFiscal(s, n, k, y);
    }
  }

  // ---------------------------------------------------------------- periods

  ghost predicate NoQuarter(s: string) {
    forall k, q, y :: !FirstQuarter(s, 0, k, q, y)
  }

  ghost predicate NoFiscal(s: string) {
    forall k, y :: !FirstFiscal(s, 0, k, y)
  }

  /**
   * A quarter label decides before anything else; then the first group of prose patterns, then a fiscal year
   * label, then the other prose patterns; without any of them a period is not recognised.
   */
  lemma PeriodExact(early: string -> Reading, late: string -> Reading, raw: string)
    ensures var text, r := Strip(raw), NormalizePeriod(early, late, raw);
      && (forall k, q, y :: FirstQuarter(text, 0, k, q, y) ==> r == Labelled(Quarterly, ExpandYear(y), Some(q)))
      && (NoQuarter(text) && early(text) != NoMatch ==> r == early(text))
      && (NoQuarter(text) && early(text) == NoMatch ==>
            && (forall k, y :: FirstFiscal(text, 0, k, y) ==> r == Labelled(Annual, ExpandYear(y), None))
            && (NoFiscal(text) ==> r == if late(text) == NoMatch then Invalid else late(text)))
  {
    hide Strip, FindQuarterYear, FindFiscalYear, FirstQuarter, FirstFiscal, ExpandYear;
    var text := Strip(raw);
    forall k, q, y | FirstQuarter(text, 0, k, q, y) ensures FindQuarterYear(text, 0) == Some((q, y)) {
      QuarterExact(text, 0, q, y);
    }
    forall k, y | FirstFiscal(text, 0, k, y) ensures FindFiscalYear(text, 0) == Some(y) {
      FiscalExact(text, 0, y);
    }
    if NoQuarter(text) && FindQuarterYear(text, 0).Some? {
      var m := FindQuarterYear(text, 0).value;
      QuarterExact(text, 0, m.0, m.1);
      assert false;
    }
    if NoFiscal(text) && FindFiscalYear(text, 0).Some? {
      FiscalExact(text, 0, FindFiscalYear(text, 0).value);
      assert false;
    }
  }

  /** Two digits behind an apostrophe are a year of this century. */
  lemma ShortYear(early: string -> Reading, late: string -> Reading, q: nat, y: nat)
    requires 1 <= q <= 4 && 10 <= y <= 99
    ensures NormalizePeriod(early, late, QuarterHead(q) + "'" + Decimal(y)) == Labelled(Quarterly, 2000 + y, Some(q))
  {
    var s := QuarterHead(q) + "'" + Decimal(y);
    ShortHere(s, q, y);
    ShortStrip(s, q, y);
    ReadBack(y);
    hide *;
    PeriodExact(early, late, s);
    FirstAtStart(s, q, Decimal(y));
  }

  lemma FirstAtStart(s: string, q: int, y: string)
    requires QuarterHere(s, 0, q, y)
    ensures FirstQuarter(s, 0, 0, q, y)
  {
    hide QuarterHere;
  }

  lemma ShortHere(s: string, q: nat, y: nat)
    requires 1 <= q <= 4 && 10 <= y <= 99 && s == QuarterHead(q) + "'" + Decimal(y)
    ensures QuarterHere(s, 0, q, Decimal(y))
  {
    OneDigit(q);
    DecimalLength(y);
    hide Decimal;
    var d := Decimal(y);
    assert s[2..] == " '" + d + "";
    assert AllSpace(" '"[..1]) && " '"[2..] == "" && " '"[1] == '\'';
    YearGiven(s[2..], " '", d, "", true, 1);
  }

  lemma ShortStrip(s: string, q: nat, y: nat)
    requires 1 <= q <= 4 && s == QuarterHead(q) + "'" + Decimal(y)
    ensures Strip(s) == s
  {
    var d := Decimal(y);
    assert s[|s| - 1] == d[|d| - 1];
    DigitsAreNotLetters(d);
    assert !IsSpace('Q');
    hide Decimal, Strip, IsSpace;
    StripNothing(s);
  }

  // ---------------------------------------------------------------- the sort key

  predicate QuarterKeyAt(s: string, k: int) {
    0 <= k < |s| - 1 && (s[k] == 'Q' || s[k] == 'q') && '0' <= s[k + 1] <= '9'
  }

  predicate YearKeyAt(s: string, k: int) {
    0 <= k <= |s| - 4 && forall j :: k <= j < k + 4 ==> '0' <= s[j] <= '9'
  }

  function DigitValue(c: char): int {
    c as int - '0' as int
  }

  function Thousands(a: char, b: char, c: char, d: char): int {
    DigitValue(a) * 1000 + DigitValue(b) * 100 + DigitValue(c) * 10 + DigitValue(d)
  }

  /** The quarter of the key is the digit behind the first Q that has one. */
  lemma {:induction false} KeyQuarterExact(s: string, i: nat, k: nat)
    requires i <= k && i <= |s| && forall j :: i <= j < k ==> !QuarterKeyAt(s, j)
    ensures QuarterKeyAt(s, k) ==> KeyQuarter(s, i) == DigitValue(s[k + 1])
    ensures k >= |s| ==> KeyQuarter(s, i) == 0
    decreases k - i
  {
    if i < k && i + 1 < |s| {
      assert !QuarterKeyAt(s, i);
      KeyQuarterExact(s, i + 1, k);
    } else if QuarterKeyAt(s, k) {
      OneValue(s[k + 1]);
    }
  }

  lemma OneValue(c: char)
    ensures Value([c]) == DigitValue(c)
  {
    assert [c][..0] == "" && Value("") == 0;
  }

  /** And its year are the first four digits in a row. */
  lemma {:induction false} KeyYearExact(s: string, i: nat, k: nat)
    requires i <= k && i <= |s| && forall j :: i <= j < k ==> !YearKeyAt(s, j)
    ensures YearKeyAt(s, k) ==> KeyYear(s, i) == Thousands(s[k], s[k + 1], s[k + 2], s[k + 3])
    ensures k >= |s| ==> KeyYear(s, i) == 0
    decreases k - i
  {
    hide Value;
    if i < k && i + 4 <= |s| {
      assert !YearKeyAt(s, i);
      KeyYearExact(s, i + 1, k);
    } else if YearKeyAt(s, k) {
      FourValue(s[k..k + 4]);
    }
  }

  lemma FourValue(d: string)
    requires |d| == 4
    ensures Value(d) == Thousands(d[0], d[1], d[2], d[3])
  {
    assert d[..3][..2] == d[..2] && d[..2][..1] == d[..1] && d[..1][..0] == "";
    assert Value(d[..1]) == DigitValue(d[0]);
    assert Value(d[..2]) == Value(d[..1]) * 10 + DigitValue(d[1]);
    assert Value(d[..3]) == Value(d[..2]) * 10 + DigitValue(d[2]);
  }
}
