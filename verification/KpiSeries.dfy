/** Period labels, and the chronological series of one KPI with its changes. */
module KpiSeries {
  import opened Text
  import opened Numerals
  import opened StableSort

  datatype PeriodType = Quarterly | Annual
  datatype Period = Period(kind: PeriodType, year: nat, quarter: Option<nat>)

  // ---------------------------------------------------------------- printing labels

  function QuarterLabel(year: nat, quarter: nat): string {
    "Q" + Decimal(quarter) + " " + Decimal(year)
  }

  function AnnualLabel(year: nat): string {
    "FY" + Decimal(year)
  }

  function PrintPeriod(p: Period): string {
    match p.quarter
    case Some(q) => QuarterLabel(p.year, q)
    case None => AnnualLabel(p.year)
  }

  predicate ProperPeriod(p: Period) {
    match p.kind
    case Quarterly => p.quarter.Some? && 1 <= p.quarter.value <= 4
    case Annual => p.quarter.None?
  }

  // ---------------------------------------------------------------- reading labels

  // `\w`, as far as period labels use it.
  predicate IsWordChar(c: char) {
    'a' <= c <= 'z' || 'A' <= c <= 'Z' || IsDigit(c) || c == '_'
  }

  predicate StartsWord(s: string, i: nat)
    requires i <= |s|
  {
    i == 0 || !IsWordChar(s[i - 1])
  }

  // `\s*'?\s*(\d{2,4})\b` from position `i`: the year digits.
  function YearAt(s: string, i: nat): Option<string>
    requires i <= |s|
  {
    var a := SkipSpace(s, i);
    var b := if a < |s| && s[a] == '\'' then SkipSpace(s, a + 1) else a;
    var e := DigitsEnd(s, b);
    if 2 <= e - b <= 4 && (e == |s| || !IsWordChar(s[e])) then Some(s[b..e]) else None
  }

  function ExpandYear(digits: string): int {
    if Value(digits) < 100 then 2000 + Value(digits) else Value(digits)
  }

  /** `\bQ([1-4])\s*'?\s*(\d{2,4})\b`, first match at or after `i`: the quarter and the year digits. */
  function FindQuarterYear(s: string, i: nat): Option<(int, string)>
    requires i <= |s|
    decreases |s| - i
  {
    if i + 1 >= |s| then None
    else if StartsWord(s, i) && (s[i] == 'Q' || s[i] == 'q') && '1' <= s[i + 1] <= '4' && YearAt(s, i + 2).Some?
    then Some((Value([s[i + 1]]), YearAt(s, i + 2).value))
    else FindQuarterYear(s, i + 1)
  }

  /** `\bFY\s*'?\s*(\d{2,4})\b`, first match at or after `i`: the year digits. */
  function FindFiscalYear(s: string, i: nat): Option<string>
    requires i <= |s|
    decreases |s| - i
  {
    if i + 1 >= |s| then None
    else if StartsWord(s, i) && (s[i] == 'F' || s[i] == 'f') && (s[i + 1] == 'Y' || s[i + 1] == 'y')
        && YearAt(s, i + 2).Some?
    then Some(YearAt(s, i + 2).value)
    else FindFiscalYear(s, i + 1)
  }

  // A label, no match of the pattern tried, or the `ValueError` of a period that cannot be read.
  datatype Reading = Labelled(kind: PeriodType, year: int, quarter: Option<int>) | NoMatch | Invalid

  /**
   * `normalize_period`, with the patterns for prose ("third quarter", "three months ended ...", "fiscal year
   * ...") as parameters: `early` stands before the FY pattern, `late` after it.
   */
  function NormalizePeriod(early: string -> Reading, late: string -> Reading, raw: string): Reading {
    var text := Strip(raw);
    match FindQuarterYear(text, 0)
    case Some(m) => Labelled(Quarterly, ExpandYear(m.1), Some(m.0))
    case None =>
      if early(text) != NoMatch then early(text) else
      match FindFiscalYear(text, 0)
      case Some(digits) => Labelled(Annual, ExpandYear(digits), None)
      case None => if late(text) != NoMatch then late(text) else Invalid
  }

  // Every prose pattern spells out a word: "quarter", "months", "year", "fiscal" or "annual".
  predicate HasWord(s: string) {
    exists i :: 0 <= i < |s| - 2 && IsLetter(s[i]) && IsLetter(s[i + 1]) && IsLetter(s[i + 2])
  }

  predicate IsLetter(c: char) {
    'a' <= c <= 'z' || 'A' <= c <= 'Z'
  }

  ghost predicate ProseOnly(f: string -> Reading) {
    forall s :: f(s) != NoMatch ==> HasWord(s)
  }

  // ---------------------------------------------------------------- labels round trip

  lemma YearAtEnd(s: string, i: nat, y: nat)
    requires i <= |s| && (s[i..] == Decimal(y) || s[i..] == " " + Decimal(y))
    ensures YearAt(s, i) == if 10 <= y <= 9999 then Some(Decimal(y)) else None
  {
    hide Decimal;
    var d := Decimal(y);
    var b := |s| - |d|;
    assert s[b..] == d;
    assert forall k :: b <= k < |s| ==> s[k] == d[k - b];
    assert !IsSpace(s[b]) && s[b] != '\'' by { assert IsDigit(s[b]); }
    SkipSpaceIs(s, i, b);
    DigitsEndIs(s, b, |s|);
    DecimalLength(y);
    assert s[b..|s|] == d;
  }

  lemma {:induction false} NoQuarterYear(s: string, i: nat)
    requires i <= |s| && forall k :: i <= k < |s| ==> s[k] != 'Q' && s[k] != 'q'
    ensures FindQuarterYear(s, i) == None
    decreases |s| - i
  {
    hide YearAt;
    if i + 1 < |s| {
      NoQuarterYear(s, i + 1);
    }
  }

  lemma {:induction false} NoFiscalYear(s: string, i: nat)
    requires i <= |s| && forall k :: i <= k < |s| ==> s[k] != 'F' && s[k] != 'f'
    ensures FindFiscalYear(s, i) == None
    decreases |s| - i
  {
    hide YearAt;
    if i + 1 < |s| {
      NoFiscalYear(s, i + 1);
    }
  }

  lemma StripNothing(s: string)
    requires s != "" && !IsSpace(s[0]) && !IsSpace(s[|s| - 1])
    ensures Strip(s) == s
  {
    SkipSpaceIs(s, 0, 0);
    assert s[0..] == s;
  }

  lemma DigitsAreNotLetters(d: string)
    requires forall k :: 0 <= k < |d| ==> IsDigit(d[k])
    ensures forall k :: 0 <= k < |d| ==> !IsSpace(d[k]) && !IsLetter(d[k])
  {
  }

  lemma LabelShape(head: string, y: nat)
    requires |head| > 0 && !IsSpace(head[0])
    ensures var s := head + Decimal(y);
      && Strip(s) == s
      && (forall k :: |head| <= k < |s| ==> IsDigit(s[k]) && !IsLetter(s[k]))
  {
    var d := Decimal(y);
    hide Decimal, Strip, IsSpace;
    DigitsAreNotLetters(d);
    var s := head + d;
    assert forall k :: |head| <= k < |s| ==> s[k] == d[k - |head|];
    assert s[|s| - 1] == d[|d| - 1];
    StripNothing(s);
  }

  lemma OneDigit(q: nat)
    requires q < 10
    ensures Decimal(q) == [Digit(q)] && Value([Digit(q)]) == q && IsDigit(Digit(q))
    ensures 1 <= q <= 4 ==> '1' <= Digit(q) <= '4'
  {
    assert [Digit(q)][..0] == "";
  }

  lemma ReadBack(y: nat)
    ensures ExpandYear(Decimal(y)) == if y < 100 then 2000 + y else y
  {
    hide Decimal, Value;
    DecimalValue(y);
  }

  lemma NoWordAfter(s: string)
    requires forall k :: 2 <= k < |s| ==> !IsLetter(s[k])
    ensures !HasWord(s)
  {
    hide IsLetter;
  }

  // The three characters before the year of a quarter label.
  function QuarterHead(q: nat): (h: string)
    requires q < 10
    ensures |h| == 3 && h[0] == 'Q' && h[1] == Digit(q) && h[2] == ' '
  {
    "Q" + [Digit(q)] + " "
  }

  lemma QuarterLabelIs(y: nat, q: nat)
    requires q < 10
    ensures QuarterLabel(y, q) == QuarterHead(q) + Decimal(y)
  {
    OneDigit(q);
  }

  lemma QuarterHeadChars(q: nat)
    requires 1 <= q <= 4
    ensures !IsSpace(QuarterHead(q)[0]) && !IsLetter(QuarterHead(q)[1]) && !IsLetter(QuarterHead(q)[2])
  {
    OneDigit(q);
  }

  lemma QuarterLetters(y: nat, q: nat)
    requires 1 <= q <= 4
    ensures var s := QuarterHead(q) + Decimal(y);
      Strip(s) == s && forall k :: 1 <= k < |s| ==> !IsLetter(s[k])
  {
    QuarterHeadChars(q);
    hide Decimal, Strip, IsSpace, IsLetter, IsDigit, QuarterHead, Digit;
    LabelShape(QuarterHead(q), y);
  }

  lemma QuarterYear(y: nat, q: nat)
    requires q < 10
    ensures YearAt(QuarterHead(q) + Decimal(y), 2) == if 10 <= y <= 9999 then Some(Decimal(y)) else None
  {
    hide Decimal, YearAt, QuarterHead;
    var s := QuarterHead(q) + Decimal(y);
    assert s[2..] == " " + Decimal(y);
    YearAtEnd(s, 2, y);
  }

  lemma QuarterLabelText(y: nat, q: nat)
    requires 1 <= q <= 4
    ensures var s := QuarterHead(q) + Decimal(y);
      && Strip(s) == s && !HasWord(s)
      && YearAt(s, 2) == (if 10 <= y <= 9999 then Some(Decimal(y)) else None)
      && forall k :: 1 <= k < |s| ==> !IsLetter(s[k])
  {
    hide *;
    QuarterLetters(y, q);
    QuarterYear(y, q);
    NoWordAfter(QuarterHead(q) + Decimal(y));
  }

  lemma FirstQuarterYear(s: string)
    requires |s| > 2 && s[0] == 'Q' && '1' <= s[1] <= '4' && forall k :: 1 <= k < |s| ==> !IsLetter(s[k])
    ensures FindQuarterYear(s, 0) == match YearAt(s, 2) case Some(d) => Some((Value([s[1]]), d)) case None => None
    ensures FindFiscalYear(s, 0) == None
  {
    hide YearAt, Value;
    NoQuarterYear(s, 1);
    NoFiscalYear(s, 0);
  }

  lemma QuarterScan(y: nat, q: nat)
    requires 1 <= q <= 4
    ensures var s := QuarterHead(q) + Decimal(y);
      && FindQuarterYear(s, 0) == (if 10 <= y <= 9999 then Some((q as int, Decimal(y))) else None)
      && FindFiscalYear(s, 0) == None
  {
    hide *;
    OneDigit(q);
    QuarterLetters(y, q);
    QuarterYear(y, q);
    FirstQuarterYear(QuarterHead(q) + Decimal(y));
  }

  /** A printed quarter label is read back as itself exactly for years from 100 to 9999. */
  lemma QuarterRoundTrip(early: string -> Reading, late: string -> Reading, y: nat, q: nat)
    requires ProseOnly(early) && ProseOnly(late) && 1 <= q <= 4
    ensures NormalizePeriod(early, late, QuarterLabel(y, q)) == Labelled(Quarterly, y, Some(q)) <==> 100 <= y <= 9999
  {
    hide Decimal, HasWord, Strip, ExpandYear, QuarterLabel, QuarterHead, FindQuarterYear, FindFiscalYear;
    QuarterLabelIs(y, q);
    QuarterLabelText(y, q);
    QuarterScan(y, q);
    ReadBack(y);
  }

  /** A printed annual label is read back as itself exactly for years from 100 to 9999. */
  lemma AnnualRoundTrip(early: string -> Reading, late: string -> Reading, y: nat)
    requires ProseOnly(early) && ProseOnly(late)
    ensures NormalizePeriod(early, late, AnnualLabel(y)) == Labelled(Annual, y, None) <==> 100 <= y <= 9999
  {
    hide Decimal, HasWord, Strip, ExpandYear, AnnualLabel, FindQuarterYear, FindFiscalYear;
    AnnualLabelText(y);
    AnnualScan(y);
    ReadBack(y);
  }

  lemma AnnualLabelText(y: nat)
    ensures var s := AnnualLabel(y);
      && |s| > 2 && s[0] == 'F' && s[1] == 'Y'
      && Strip(s) == s && !HasWord(s)
      && YearAt(s, 2) == (if 10 <= y <= 9999 then Some(Decimal(y)) else None)
      && forall k :: 2 <= k < |s| ==> !IsLetter(s[k])
  {
    assert !IsSpace("FY"[0]);
    hide Decimal, Strip, YearAt, IsSpace, IsLetter, HasWord;
    var s := AnnualLabel(y);
    LabelShape("FY", y);
    NoWordAfter(s);
    assert s[2..] == Decimal(y);
    YearAtEnd(s, 2, y);
  }

  lemma FirstFiscalYear(s: string)
    requires |s| > 2 && s[0] == 'F' && s[1] == 'Y' && forall k :: 2 <= k < |s| ==> s[k] != 'F' && s[k] != 'f'
    ensures FindFiscalYear(s, 0) == YearAt(s, 2)
  {
    hide YearAt;
    NoFiscalYear(s, 1);
  }

  lemma AnnualScan(y: nat)
    ensures FindQuarterYear(AnnualLabel(y), 0) == None
    ensures FindFiscalYear(AnnualLabel(y), 0) == if 10 <= y <= 9999 then Some(Decimal(y)) else None
  {
    AnnualLabelText(y);
    hide Decimal, Strip, YearAt, AnnualLabel, HasWord, FindQuarterYear, FindFiscalYear;
    var s := AnnualLabel(y);
    FirstFiscalYear(s);
    NoQuarterYear(s, 0);
  }

  // ---------------------------------------------------------------- the dashboard's sort key

  predicate AllDigits(s: string, i: nat, j: nat)
    requires i <= j <= |s|
  {
    forall k :: i <= k < j ==> IsDigit(s[k])
  }

  /** The first four digits in a row at or after `i`, as a number; 0 when there are none. */
  function KeyYear(s: string, i: nat): int
    requires i <= |s|
    decreases |s| - i
  {
    if i + 4 > |s| then 0
    else if AllDigits(s, i, i + 4) then Value(s[i..i + 4])
    else KeyYear(s, i + 1)
  }

  /** The digit after the first Q that has one; 0 when there is none. */
  function KeyQuarter(s: string, i: nat): int
    requires i <= |s|
    decreases |s| - i
  {
    if i + 1 >= |s| then 0
    else if (s[i] == 'Q' || s[i] == 'q') && IsDigit(s[i + 1]) then Value([s[i + 1]])
    else KeyQuarter(s, i + 1)
  }

  function SortKey(period: string): (int, int) {
    (KeyYear(period, 0), KeyQuarter(period, 0))
  }

  // No four digits start before position `n` when the character before it is no digit and little stands ahead of it.
  lemma {:induction false} KeyYearFrom(s: string, i: nat, n: nat)
    requires i < n <= |s| && n <= i + 4 && !IsDigit(s[n - 1])
    ensures KeyYear(s, i) == KeyYear(s, n)
    decreases n - i
  {
    hide Value;
    if i + 4 <= |s| {
      assert !AllDigits(s, i, i + 4);
      if i + 1 < n {
        KeyYearFrom(s, i + 1, n);
      }
    } else {
      KeyYearShort(s, n);
    }
  }

  lemma KeyYearShort(s: string, n: nat)
    requires n <= |s| < n + 4
    ensures KeyYear(s, n) == 0
  {
  }

  function Tens(n: nat): nat {
    if n == 0 then 1 else 10 * Tens(n - 1)
  }

  lemma {:induction false} ValueBelow(d: string)
    requires AllDigits(d, 0, |d|)
    ensures 0 <= Value(d) < Tens(|d|)
  {
    if d != "" {
      ValueBelow(d[..|d| - 1]);
    }
  }

  lemma FourDigits()
    ensures Tens(4) == 10000
  {
    assert Tens(2) == 100;
  }

  lemma KeyYearOfLabel(head: string, y: nat)
    requires 1 <= |head| <= 4 && !IsDigit(head[|head| - 1])
    ensures KeyYear(head + Decimal(y), 0) == y <==> 1000 <= y <= 9999 || y == 0
  {
    hide Decimal, Value, Tens;
    var d, s, n := Decimal(y), head + Decimal(y), |head|;
    KeyYearFrom(s, 0, n);
    DecimalLength(y);
    assert forall k :: n <= k < |s| ==> s[k] == d[k - n];
    if |d| < 4 {
      KeyYearShort(s, n);
    } else {
      assert AllDigits(s, n, n + 4);
      ValueBelow(s[n..n + 4]);
      FourDigits();
      DecimalValue(y);
      assert |d| == 4 ==> s[n..n + 4] == d;
    }
  }

  lemma {:induction false} NoKeyQuarter(s: string, i: nat)
    requires i <= |s| && forall k :: i <= k < |s| ==> s[k] != 'Q' && s[k] != 'q'
    ensures KeyQuarter(s, i) == 0
    decreases |s| - i
  {
    if i + 1 < |s| {
      NoKeyQuarter(s, i + 1);
    }
  }

  /** The sort key of a printed label is its year and quarter, exactly for four-digit years (and year 0). */
  lemma KeyOfLabel(p: Period)
    requires ProperPeriod(p)
    ensures SortKey(PrintPeriod(p)) == (p.year, p.quarter.GetOr(0)) <==> 1000 <= p.year <= 9999 || p.year == 0
  {
    hide Decimal, Value, KeyYear;
    var s := PrintPeriod(p);
    match p.quarter
    case Some(q) =>
      OneDigit(q);
      var head := "Q" + [Digit(q)] + " ";
      assert s == head + Decimal(p.year);
      KeyYearOfLabel(head, p.year);
      assert s[0] == 'Q' && s[1] == Digit(q);
    case None =>
      KeyYearOfLabel("FY", p.year);
      var d := Decimal(p.year);
      assert forall k :: 2 <= k < |s| ==> s[k] == d[k - 2] && IsDigit(s[k]);
      NoKeyQuarter(s, 0);
  }

  // ---------------------------------------------------------------- the series of one KPI

  datatype Row = Row(period: string, kind: PeriodType, value: real)
  datatype DataPoint = DataPoint(row: Row, change: Option<real>)

  predicate KeyLe(a: (int, int), b: (int, int)) {
    a.0 < b.0 || (a.0 == b.0 && a.1 <= b.1)
  }

  function ByPeriod(rows: seq<Row>): (r: seq<Row>)
    ensures |r| == |rows|
  {
    Sorted((a: Row, b: Row) => KeyLe(SortKey(a.period), SortKey(b.period)), rows)
  }

  /** The nearest earlier point of the same period type. */
  function Prior(rows: seq<Row>, n: nat, kind: PeriodType): (j: int)
    requires n <= |rows|
    ensures -1 <= j < n
    ensures j >= 0 ==> rows[j].kind == kind
    ensures forall k :: j < k < n ==> rows[k].kind != kind
  {
    if n == 0 then -1 else if rows[n - 1].kind == kind then n - 1 else Prior(rows, n - 1, kind)
  }

  function ChangeFrom(before: real, after: real): Option<real> {
    if before != 0.0 then Some((after - before) / Abs(before) * 100.0) else None
  }

  /** A change is told unless the earlier value is 0: in percent of its size, with the sign of the difference. */
  lemma ChangeExact(before: real, after: real)
    ensures ChangeFrom(before, after).None? <==> before == 0.0
    ensures before != 0.0 ==>
      var p := ChangeFrom(before, after).value;
      && p * (if before < 0.0 then -before else before) == (after - before) * 100.0
      && (p > 0.0 <==> before < after)
      && (p == 0.0 <==> before == after)
  {
    if before != 0.0 {
      QuotientSign(after - before, Abs(before));
    }
  }

  lemma QuotientSign(a: real, b: real)
    requires b > 0.0
    ensures a / b * 100.0 * b == a * 100.0
    ensures a / b > 0.0 <==> a > 0.0
    ensures a / b == 0.0 <==> a == 0.0
  {
    var q := a / b;
    assert q * b == a;
    assert q > 0.0 ==> q * b > 0.0;
    assert q < 0.0 ==> q * b < 0.0;
  }

  function ChangeAt(rows: seq<Row>, i: nat): Option<real>
    requires i < |rows|
  {
    var j := Prior(rows, i, rows[i].kind);
    if j == -1 then None else ChangeFrom(rows[j].value, rows[i].value)
  }

  /** Each point's change is against the nearest earlier point of its own period type, in chronological order. */
  method DataPointsWithYoy(rows: seq<Row>) returns (points: seq<DataPoint>)
    ensures |points| == |rows|
    ensures forall i :: 0 <= i < |points| ==>
      points[i] == DataPoint(ByPeriod(rows)[i], ChangeAt(ByPeriod(rows), i))
  {
    hide ByPeriod, ChangeFrom, ChangeAt, Remembers;
    assert forall rows: seq<Row> :: Remembers(map[], rows, 0) by { RemembersNothing(); }
    var ordered := ByPeriod(rows);
    points := [];
    var last: map<PeriodType, real> := map[];
    for i := 0 to |ordered|
      invariant |points| == i
      invariant forall k :: 0 <= k < i ==> points[k] == DataPoint(ordered[k], ChangeAt(ordered, k))
      invariant Remembers(last, ordered, i)
    {
      var row := ordered[i];
      var change := if row.kind in last then ChangeFrom(last[row.kind], row.value) else None;
      RemembersNext(last, ordered, i);
      last := last[row.kind := row.value];
      points := points + [DataPoint(row, change)];
    }
  }

  /** `last_value_by_period_type` before row `n`. */
  ghost predicate Remembers(last: map<PeriodType, real>, rows: seq<Row>, n: nat)
    requires n <= |rows|
  {
    forall kind: PeriodType ::
      var j := Prior(rows, n, kind); (kind in last <==> j != -1) && (j != -1 ==> last[kind] == rows[j].value)
  }

  lemma RemembersNothing()
    ensures forall rows: seq<Row> :: Remembers(map[], rows, 0)
  {
  }

  lemma RemembersNext(last: map<PeriodType, real>, rows: seq<Row>, i: nat)
    requires i < |rows| && Remembers(last, rows, i)
    ensures Remembers(last[rows[i].kind := rows[i].value], rows, i + 1)
    ensures ChangeAt(rows, i) == if rows[i].kind in last then ChangeFrom(last[rows[i].kind], rows[i].value) else None
  {
    hide ChangeFrom;
  }

  /**
   * The series is a chronological permutation of its rows: position by position it takes each row once,
   * with keys that never decrease, and rows of one period stay in the order they came.
   */
  lemma SeriesIsChronological(rows: seq<Row>)
    ensures var le := (a: Row, b: Row) => KeyLe(SortKey(a.period), SortKey(b.period));
      var order := Order(le, rows, 0);
      && AllDistinct(order) && (forall k :: k in order <==> 0 <= k < |rows|)
      && (forall i :: 0 <= i < |rows| ==> ByPeriod(rows)[i] == rows[order[i]])
      && forall i, j :: 0 <= i < j < |rows| ==>
           && KeyLe(SortKey(ByPeriod(rows)[i].period), SortKey(ByPeriod(rows)[j].period))
           && (SortKey(ByPeriod(rows)[i].period) == SortKey(ByPeriod(rows)[j].period) ==> order[i] < order[j])
  {
    hide SortKey, Order;
    var le := (a: Row, b: Row) => KeyLe(SortKey(a.period), SortKey(b.period));
    OrderIsStable(le, rows, 0);
    var order := Order(le, rows, 0);
    forall i, j | 0 <= i < j < |rows|
      ensures KeyLe(SortKey(ByPeriod(rows)[i].period), SortKey(ByPeriod(rows)[j].period))
      ensures SortKey(ByPeriod(rows)[i].period) == SortKey(ByPeriod(rows)[j].period) ==> order[i] < order[j]
    {
      assert Precedes(le, rows, order[i], order[j]);
    }
  }

  /**
   * For printed labels with four-digit years the series is in calendar order, annual figures before the year's
   * quarters.
   */
  lemma PrintedSeriesOrder(a: Period, b: Period)
    requires ProperPeriod(a) && ProperPeriod(b) && 1000 <= a.year <= 9999 && 1000 <= b.year <= 9999
    ensures KeyLe(SortKey(PrintPeriod(a)), SortKey(PrintPeriod(b)))
       <==> a.year < b.year || (a.year == b.year && a.quarter.GetOr(0) <= b.quarter.GetOr(0))
  {
    hide SortKey, PrintPeriod;
    KeyOfLabel(a);
    KeyOfLabel(b);
  }
}
