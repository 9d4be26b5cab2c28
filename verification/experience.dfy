/** Years of experience and seniority level: `calculate_experience_smart`,
    `parse_date` and `calculate_fallback_experience` (backend/parser.py,
    lines 108-184).

    The matches of the date-range regular expression are the parameter
    `ranges` (the `(start_str, end_str)` pairs of `re.findall`, in order),
    and the clock is the parameter `now`.  Years are counted in tenths: the
    source's `round(total_months / 12, 1)` and `float(whole_years)` are
    both whole numbers of tenths. */
module Experience {
  import opened Text

  datatype Option<T> = None | Some(value: T)

  /** The first day of a month: `datetime(year, month, 1)`. */
  datatype Date = Date(year: int, month: int)

  /** One `(start_str, end_str)` match of the date-range pattern. */
  datatype RangeMatch = RangeMatch(start: string, end: string)

  datatype Level = Junior | Mid | Senior

  /** `(exp_years, level)`, with the years as a count of tenths. */
  datatype Estimate = Estimate(tenths: nat, level: Level)

  /** Above 30 years the estimate is discarded as noise. */
  const CapTenths: nat := 300
  const SeniorTenths: nat := 50
  const MidTenths: nat := 20

  /** The earliest year the fallback method believes. */
  const FallbackFloor: int := 2010

  /** The words that mark a line as about schooling in the fallback. */
  const SchoolingKeywords: seq<string> :=
    ["ssc", "hsc", "gpa", "school", "college", "university", "passing", "bachelor"]

  /** The words that make an end bound mean "until now". */
  const OngoingWords: seq<string> := ["present", "current", "now"]

  // ---------------------------------------------------------------------
  // Four-digit years

  predicate FourDigits(s: string, p: int) {
    0 <= p && p + 4 <= |s|
    && IsDigit(s[p]) && IsDigit(s[p + 1]) && IsDigit(s[p + 2]) && IsDigit(s[p + 3])
  }

  /** `int(s[p:p + 4])` */
  function FourDigitValue(s: string, p: int): nat
    requires FourDigits(s, p)
  {
    1000 * DigitValue(s[p]) + 100 * DigitValue(s[p + 1])
    + 10 * DigitValue(s[p + 2]) + DigitValue(s[p + 3])
  }

  // ---------------------------------------------------------------------
  // parse_date

  /** The pattern `(20\d{2}|19\d{2})` matches at position `p`. */
  predicate YearAt(s: string, p: int) {
    FourDigits(s, p)
    && ((s[p] == '2' && s[p + 1] == '0') || (s[p] == '1' && s[p + 1] == '9'))
  }

  /** The first position at or after `p` where a year starts, or `|s|`. */
  function FirstYearFrom(s: string, p: nat): (q: nat)
    requires p <= |s|
    ensures p <= q <= |s|
    ensures forall i :: p <= i < q ==> !YearAt(s, i)
    ensures q < |s| ==> YearAt(s, q)
    decreases |s| - p
  {
    if p == |s| || YearAt(s, p) then p else FirstYearFrom(s, p + 1)
  }

  /** `parse_date(date_str)`: January 1 of the first 19xx or 20xx year in
      the string, or nothing when there is none. */
  function ParseDate(s: string): (d: Option<Date>)
    ensures d.Some? ==> d.value.month == 1 && 1900 <= d.value.year <= 2099
    ensures d.None? <==> forall p :: 0 <= p < |s| ==> !YearAt(s, p)
    ensures forall p :: YearAt(s, p) && (forall q :: 0 <= q < p ==> !YearAt(s, q)) ==>
              d == Some(Date(FourDigitValue(s, p), 1))
  {
    var q := FirstYearFrom(s, 0);
    FirstYearIsUnique(s, q);
    if q < |s| then Some(Date(FourDigitValue(s, q), 1)) else None
  }

  /** Only one position can be the first year. */
  lemma FirstYearIsUnique(s: string, q: nat)
    requires q == FirstYearFrom(s, 0)
    ensures forall p :: YearAt(s, p) && (forall i :: 0 <= i < p ==> !YearAt(s, i)) ==> p == q
  {
    forall p | YearAt(s, p) && (forall i :: 0 <= i < p ==> !YearAt(s, i))
      ensures p == q
    {
      if p < q {
        assert false;
      } else if q < p {
        assert false;
      }
    }
  }

  // ---------------------------------------------------------------------
  // The range method

  /** `any(x in end_str for x in ["present", "current", "now"])` */
  predicate IsOngoing(end: string) {
    exists k :: 0 <= k < |OngoingWords| && Contains(end, OngoingWords[k])
  }

  function EndDate(end: string, now: Date): Option<Date> {
    if IsOngoing(end) then Some(now) else ParseDate(end)
  }

  /** `(end.year - start.year) * 12 + (end.month - start.month)` */
  function MonthsBetween(start: Date, end: Date): int {
    (end.year - start.year) * 12 + (end.month - start.month)
  }

  /** What one range adds to `total_months`: its month difference when both
      bounds parse and the difference is positive, and nothing otherwise. */
  function RangeMonths(r: RangeMatch, now: Date): nat {
    BoundedMonths(ParseDate(r.start), EndDate(r.end, now))
  }

  /** The same for already parsed bounds. */
  function BoundedMonths(start: Option<Date>, end: Option<Date>): nat {
    match (start, end)
    case (Some(s), Some(e)) =>
      var diff := MonthsBetween(s, e);
      if diff > 0 then diff else 0
    case _ => 0
  }

  /** `total_months` after the loop over the ranges. */
  function TotalMonths(ranges: seq<RangeMatch>, now: Date): nat
    decreases |ranges|
  {
    if ranges == [] then 0 else RangeMonths(ranges[0], now) + TotalMonths(ranges[1..], now)
  }

  /** A range adds nothing when a bound does not parse, or when its end
      does not come after its start. */
  lemma BackwardRangeAddsNothing(start: Option<Date>, end: Option<Date>)
    requires start.None? || end.None? || MonthsBetween(start.value, end.value) <= 0
    ensures BoundedMonths(start, end) == 0
  {
  }

  /** Since `parse_date` keeps only the year, a range with two explicit
      years counts whole years: twelve times the year difference when it is
      positive, nothing otherwise. */
  lemma ExplicitYearsCountWholeYears(r: RangeMatch, now: Date)
    requires !IsOngoing(r.end)
    ensures RangeMonths(r, now) % 12 == 0
    ensures ParseDate(r.start).Some? && ParseDate(r.end).Some? ==>
              var years := ParseDate(r.end).value.year - ParseDate(r.start).value.year;
              RangeMonths(r, now) == if years > 0 then 12 * years else 0
  {
    assert EndDate(r.end, now) == ParseDate(r.end);
    JanuaryBoundsCountWholeYears(ParseDate(r.start), ParseDate(r.end));
  }

  lemma JanuaryBoundsCountWholeYears(s: Option<Date>, e: Option<Date>)
    requires s.Some? ==> s.value.month == 1
    requires e.Some? ==> e.value.month == 1
    ensures BoundedMonths(s, e) % 12 == 0
    ensures s.Some? && e.Some? ==>
              var years := e.value.year - s.value.year;
              BoundedMonths(s, e) == if years > 0 then 12 * years else 0
  {
    if s.Some? && e.Some? {
      var years := e.value.year - s.value.year;
      assert MonthsBetween(s.value, e.value) == 12 * years;
      if years > 0 {
        TwelveDivides(years);
      }
    }
  }

  lemma TwelveDivides(k: nat)
    ensures (12 * k) % 12 == 0
  {
    assert 12 * k == k * 12 + 0;
  }

  /** The total is the sum over the ranges, in any split. */
  lemma {:induction false} TotalMonthsAppend(a: seq<RangeMatch>, b: seq<RangeMatch>, now: Date)
    ensures TotalMonths(a + b, now) == TotalMonths(a, now) + TotalMonths(b, now)
    decreases |a|
  {
    if a == [] {
      assert a + b == b;
    } else {
      assert (a + b)[0] == a[0];
      assert (a + b)[1..] == a[1..] + b;
      TotalMonthsAppend(a[1..], b, now);
    }
  }

  /** Every range adds at least nothing and at most the total. */
  lemma {:induction false} RangeWithinTotal(ranges: seq<RangeMatch>, now: Date, i: nat)
    requires i < |ranges|
    ensures RangeMonths(ranges[i], now) <= TotalMonths(ranges, now)
    decreases |ranges|
  {
    if i > 0 {
      RangeWithinTotal(ranges[1..], now, i - 1);
    }
  }

  /** `round(months / 12, 1)` in tenths: the nearest whole number of tenths,
      ties to the even one (the ties are quarters of a year, exact in binary
      floating point). */
  function RoundTenths(months: nat): (t: nat)
    ensures -3 <= 6 * t - 5 * months <= 3
    ensures (6 * t - 5 * months == 3 || 6 * t - 5 * months == -3) ==> t % 2 == 0
  {
    var q := (5 * months) / 6;
    var rem := (5 * months) % 6;
    var t := if rem > 3 || (rem == 3 && q % 2 == 1) then q + 1 else q;
    RoundingError(5 * months, q, rem, t);
    t
  }

  lemma RoundingError(m5: nat, q: nat, rem: nat, t: nat)
    requires m5 == 6 * q + rem && rem < 6
    requires t == if rem > 3 || (rem == 3 && q % 2 == 1) then q + 1 else q
    ensures -3 <= 6 * t - m5 <= 3
    ensures (6 * t - m5 == 3 || 6 * t - m5 == -3) ==> t % 2 == 0
  {
  }

  /** Rounding to tenths never moves a whole month count across the
      thresholds: 2, 5 and 30 years are 24, 60 and 360 months. */
  lemma RoundingKeepsThresholds(months: nat)
    ensures RoundTenths(months) >= SeniorTenths <==> months >= 60
    ensures RoundTenths(months) >= MidTenths <==> months >= 24
    ensures RoundTenths(months) > CapTenths <==> months > 360
    ensures RoundTenths(months) == 0 <==> months == 0
  {
  }

  // ---------------------------------------------------------------------
  // The fallback method

  /** `any(kw in line.lower() for kw in education_keywords)` */
  predicate MentionsSchooling(line: string) {
    exists k :: 0 <= k < |SchoolingKeywords| && Contains(Lower(line), SchoolingKeywords[k])
  }

  /** The pattern `\b(20\d{2})\b` matches at position `p`. */
  predicate YearTokenAt(line: string, p: int) {
    FourDigits(line, p) && line[p] == '2' && line[p + 1] == '0'
    && WordBoundary(line, p) && WordBoundary(line, p + 4)
  }

  predicate HasYearToken(line: string, y: int) {
    exists p :: 0 <= p <= |line| && YearTokenAt(line, p) && y == FourDigitValue(line, p)
  }

  /** Two year tokens never overlap: the digits of one leave no `\b`
      inside it. */
  lemma TokensDoNotOverlap(line: string, p: int, q: int)
    requires YearTokenAt(line, p) && p < q < p + 4
    ensures !YearTokenAt(line, q)
  {
    assert IsWordChar(line[q - 1]);
  }

  /** `re.findall(r'\b(20\d{2})\b', line)`, scanning from position `from`. */
  function YearTokens(line: string, from: nat): (ys: seq<int>)
    ensures forall y :: y in ys <==>
              exists p :: from <= p <= |line| && YearTokenAt(line, p) && y == FourDigitValue(line, p)
    decreases |line| - from
  {
    if from + 4 > |line| then []
    else if YearTokenAt(line, from) then
      var rest := YearTokens(line, from + 4);
      assert forall p :: from < p < from + 4 ==> !YearTokenAt(line, p) by {
        forall p | from < p < from + 4 {
          TokensDoNotOverlap(line, from, p);
        }
      }
      [FourDigitValue(line, from)] + rest
    else
      YearTokens(line, from + 1)
  }

  /** A year the fallback believes: written as a token on a line that is not
      about schooling, and inside `[2010, current_year]`. */
  predicate ValidYearIn(line: string, currentYear: int, y: int) {
    !MentionsSchooling(line) && FallbackFloor <= y <= currentYear && HasYearToken(line, y)
  }

  /** The years of one line that enter `valid_years`. */
  function LineYears(line: string, currentYear: int): (ys: seq<int>)
    ensures forall y :: y in ys <==> ValidYearIn(line, currentYear, y)
  {
    if MentionsSchooling(line) then []
    else InWindow(YearTokens(line, 0), FallbackFloor, currentYear)
  }

  function InWindow(ys: seq<int>, lo: int, hi: int): (r: seq<int>)
    ensures forall y :: y in r <==> y in ys && lo <= y <= hi
    decreases |ys|
  {
    if ys == [] then []
    else
      var rest := InWindow(ys[1..], lo, hi);
      assert forall y :: y in ys <==> y == ys[0] || y in ys[1..];
      if lo <= ys[0] <= hi then [ys[0]] + rest else rest
  }

  /** `valid_years` after the loop over the lines. */
  function ValidYears(lines: seq<string>, currentYear: int): (ys: seq<int>)
    ensures forall y :: y in ys <==> exists l :: l in lines && ValidYearIn(l, currentYear, y)
    decreases |lines|
  {
    if lines == [] then []
    else
      var rest := ValidYears(lines[1..], currentYear);
      assert forall l :: l in lines <==> l == lines[0] || l in lines[1..];
      LineYears(lines[0], currentYear) + rest
  }

  /** `min(xs)` */
  function SeqMin(xs: seq<int>): (m: int)
    requires xs != []
    ensures m in xs
    ensures forall x :: x in xs ==> m <= x
    decreases |xs|
  {
    if |xs| == 1 then xs[0]
    else
      var m := SeqMin(xs[1..]);
      assert forall x :: x in xs ==> x == xs[0] || x in xs[1..];
      if xs[0] <= m then xs[0] else m
  }

  /** `calculate_fallback_experience` on the lines of the text: the years
      since the earliest believable year, or 0 when there is none.  Lines
      about schooling play no part. */
  function FallbackYears(lines: seq<string>, currentYear: int): (years: nat)
    ensures forall l, y :: l in lines && ValidYearIn(l, currentYear, y) ==> currentYear - y <= years
    ensures (exists l, y :: l in lines && ValidYearIn(l, currentYear, y)) ==>
              exists l, y :: l in lines && ValidYearIn(l, currentYear, y) && years == currentYear - y
    ensures (forall l, y :: l in lines ==> !ValidYearIn(l, currentYear, y)) ==> years == 0
    ensures years == 0 || years <= currentYear - FallbackFloor
  {
    var ys := ValidYears(lines, currentYear);
    assert forall l, y :: l in lines && ValidYearIn(l, currentYear, y) ==> y in ys;
    if ys == [] then 0
    else
      var m := SeqMin(ys);
      currentYear - m
  }

  function WithoutSchooling(lines: seq<string>): (r: seq<string>)
    ensures forall l :: l in r ==> !MentionsSchooling(l)
    decreases |lines|
  {
    if lines == [] then []
    else if MentionsSchooling(lines[0]) then WithoutSchooling(lines[1..])
    else [lines[0]] + WithoutSchooling(lines[1..])
  }

  lemma {:induction false} ValidYearsIgnoreSchooling(lines: seq<string>, currentYear: int)
    ensures ValidYears(lines, currentYear) == ValidYears(WithoutSchooling(lines), currentYear)
    decreases |lines|
  {
    if lines != [] {
      ValidYearsIgnoreSchooling(lines[1..], currentYear);
      if !MentionsSchooling(lines[0]) {
        var w := [lines[0]] + WithoutSchooling(lines[1..]);
        assert w[0] == lines[0] && w[1..] == WithoutSchooling(lines[1..]);
      }
    }
  }

  /** Dropping every line about schooling leaves the fallback unchanged. */
  lemma SchoolingLinesIgnored(lines: seq<string>, currentYear: int)
    ensures FallbackYears(lines, currentYear) == FallbackYears(WithoutSchooling(lines), currentYear)
  {
    ValidYearsIgnoreSchooling(lines, currentYear);
  }

  // ---------------------------------------------------------------------
  // calculate_experience_smart

  /** `exp_years` before the cap, in tenths: the range method when the
      regex found ranges, the fallback on the lowered text otherwise. */
  function RawTenths(text: string, ranges: seq<RangeMatch>, now: Date): nat {
    if |ranges| > 0 then RoundTenths(TotalMonths(ranges, now))
    else 10 * FallbackYears(SplitOn(Lower(text), '\n'), now.year)
  }

  function LevelFor(tenths: nat): Level {
    if tenths >= SeniorTenths then Senior
    else if tenths >= MidTenths then Mid
    else Junior
  }

  /** `calculate_experience_smart(text)`: never above 30 years, and the
      level follows the 5-year and 2-year thresholds. */
  function CalculateExperience(text: string, ranges: seq<RangeMatch>, now: Date): (e: Estimate)
    ensures e.tenths <= CapTenths
    ensures e.level == Senior <==> e.tenths >= SeniorTenths
    ensures e.level == Mid <==> MidTenths <= e.tenths < SeniorTenths
    ensures e.level == Junior <==> e.tenths < MidTenths
  {
    var raw := RawTenths(text, ranges, now);
    var tenths := if raw > CapTenths then 0 else raw;
    Estimate(tenths, LevelFor(tenths))
  }

  /** Above the cap the estimate becomes 0 and Junior, not 30; at or below
      it the raw value is kept. */
  lemma CapResetsToZero(text: string, ranges: seq<RangeMatch>, now: Date)
    ensures RawTenths(text, ranges, now) > CapTenths ==>
              CalculateExperience(text, ranges, now) == Estimate(0, Junior)
    ensures RawTenths(text, ranges, now) <= CapTenths ==>
              CalculateExperience(text, ranges, now).tenths == RawTenths(text, ranges, now)
  {
  }

  /** Once the regex found a range, the rest of the text (and so the
      fallback) no longer matters. */
  lemma RangesOverrideFallback(text1: string, text2: string, ranges: seq<RangeMatch>, now: Date)
    requires |ranges| > 0
    ensures CalculateExperience(text1, ranges, now) == CalculateExperience(text2, ranges, now)
  {
  }

  /** With ranges, the level and the cap read directly off the month total. */
  lemma LevelByMonths(text: string, ranges: seq<RangeMatch>, now: Date)
    requires |ranges| > 0
    ensures var m := TotalMonths(ranges, now);
            var e := CalculateExperience(text, ranges, now);
            && (e.level == Senior <==> 60 <= m <= 360)
            && (e.level == Mid <==> 24 <= m < 60)
            && (e.tenths == 0 <==> m == 0 || m > 360)
  {
    RoundingKeepsThresholds(TotalMonths(ranges, now));
  }

  /** "2018 - 2020" and "2021 - Present" in June 2024: 24 + 41 = 65 months,
      which is 5.4 years and Senior. */
  lemma TwoRangesExample(text: string)
    ensures CalculateExperience(text, [RangeMatch("2018", "2020"), RangeMatch("2021", "present")],
                                Date(2024, 6)) == Estimate(54, Senior)
  {
    var now := Date(2024, 6);
    var r1 := RangeMatch("2018", "2020");
    var r2 := RangeMatch("2021", "present");
    assert YearAt("2018", 0) && YearAt("2020", 0) && YearAt("2021", 0);
    assert !IsOngoing("2020");
    assert OccursAt(OngoingWords[0], "present", 0);
    assert RangeMonths(r1, now) == 24;
    assert RangeMonths(r2, now) == 41;
    var rs := [r1, r2];
    assert rs[1..] == [r2];
    assert [r2][1..] == [];
    assert TotalMonths([r2], now) == 41;
    assert TotalMonths(rs, now) == 65;
  }

  /** A text whose only year is 2015 counts from 2015 to the current year:
      nine years in 2024, not zero. */
  lemma SingleYearFallbackExample()
    ensures CalculateExperience("2015", [], Date(2024, 3)) == Estimate(90, Senior)
  {
    var lines := SplitOn(Lower("2015"), '\n');
    assert lines == ["2015"] by {
      assert Lower("2015") == "2015";
    }
    OnlyYear2015();
    OnlyYearGivesYearsSince(["2015"], 2024, 2015);
  }

  lemma OnlyYear2015()
    ensures ValidYearIn("2015", 2024, 2015)
    ensures forall y :: ValidYearIn("2015", 2024, y) ==> y == 2015
  {
    assert YearTokenAt("2015", 0);
    assert Lower("2015") == "2015";
    assert !MentionsSchooling("2015");
    forall y | ValidYearIn("2015", 2024, y)
      ensures y == 2015
    {
      var p :| 0 <= p <= 4 && YearTokenAt("2015", p) && y == FourDigitValue("2015", p);
      assert p == 0;
    }
  }

  /** When every believable year is the same year `y`, the fallback counts
      the years from `y` to now, not zero. */
  lemma OnlyYearGivesYearsSince(lines: seq<string>, currentYear: int, y: int)
    requires exists l :: l in lines && ValidYearIn(l, currentYear, y)
    requires forall l, z :: l in lines && ValidYearIn(l, currentYear, z) ==> z == y
    ensures FallbackYears(lines, currentYear) == currentYear - y
  {
  }
}
