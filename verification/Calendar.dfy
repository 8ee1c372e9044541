/** The closed-form conversion from a day number to a Gregorian date, proved against a
    calendar that counts days one at a time. Day 0 is 1 January 1970. */
module Calendar {
  datatype Date = Date(year: int, month: int, day: int)

  // ----- The reference calendar: leap years, month lengths and "the next day" -----

  predicate IsLeap(y: int) {
    y % 4 == 0 && (y % 100 != 0 || y % 400 == 0)
  }

  function DaysInMonth(y: int, m: int): (days: int)
    requires 1 <= m <= 12
  {
    if m == 2 then (if IsLeap(y) then 29 else 28)
    else if m == 4 || m == 6 || m == 9 || m == 11 then 30
    else 31
  }

  predicate Valid(d: Date) {
    1 <= d.month <= 12 && 1 <= d.day <= DaysInMonth(d.year, d.month)
  }

  function NextDay(d: Date): (next: Date)
    requires Valid(d)
    ensures Valid(next)
  {
    if d.day < DaysInMonth(d.year, d.month) then Date(d.year, d.month, d.day + 1)
    else if d.month < 12 then Date(d.year, d.month + 1, 1)
    else Date(d.year + 1, 1, 1)
  }

  function DaysInYear(y: int): int {
    if IsLeap(y) then 366 else 365
  }

  /** Days from 1 January 1970 to 1 January of `y`, one year at a time. */
  function DaysBeforeYear(y: int): int
    decreases if y >= 1970 then y - 1970 else 1970 - y
  {
    if y == 1970 then 0
    else if y > 1970 then DaysBeforeYear(y - 1) + DaysInYear(y - 1)
    else DaysBeforeYear(y + 1) - DaysInYear(y)
  }

  /** Days from 1 January of `y` to the first of month `m`, one month at a time. */
  function DaysBeforeMonth(y: int, m: int): int
    requires 1 <= m <= 12
    decreases m
  {
    if m == 1 then 0 else DaysBeforeMonth(y, m - 1) + DaysInMonth(y, m - 1)
  }

  /** The day number of a date, found by counting. */
  function DayNumber(d: Date): int
    requires 1 <= d.month <= 12
  {
    DaysBeforeYear(d.year) + DaysBeforeMonth(d.year, d.month) + d.day - 1
  }

  predicate Before(a: Date, b: Date) {
    a.year < b.year
    || (a.year == b.year && (a.month < b.month || (a.month == b.month && a.day < b.day)))
  }

  // ----- The program's conversion -----

  /** Division that rounds toward zero, as the program's integer `/` does. */
  function TruncDiv(a: int, b: int): int
    requires b > 0
  {
    if a >= 0 then a / b else -((-a) / b)
  }

  function Era(z: int): int {
    TruncDiv(if z >= 0 then z else z - 146_096, 146_097)
  }

  function YearOfEra(doe: int): int {
    TruncDiv(doe - TruncDiv(doe, 1_460) + TruncDiv(doe, 36_524) - TruncDiv(doe, 146_096), 365)
  }

  function DayOfYear(doe: int, yoe: int): int {
    doe - (365 * yoe + TruncDiv(yoe, 4) - TruncDiv(yoe, 100))
  }

  /** The date on day `doy` of the year that starts on 1 March of `year`. */
  function DateInMarchYear(year: int, doy: int): (d: Date) {
    var mp := TruncDiv(5 * doy + 2, 153);
    var day := doy - TruncDiv(153 * mp + 2, 5) + 1;
    var month := mp + if mp < 10 then 3 else -9;
    Date(year + (if month <= 2 then 1 else 0), month, day)
  }

  /** The date on day `doe` of a 400-year era. */
  function CivilInEra(era: int, doe: int): (d: Date) {
    var yoe := YearOfEra(doe);
    DateInMarchYear(yoe + era * 400, DayOfYear(doe, yoe))
  }

  function CivilFromDays(days: int): (d: Date) {
    var z := days + 719_468;
    var era := Era(z);
    CivilInEra(era, z - era * 146_097)
  }

  // ----- Lemmas -----

  /** The truncating expression for the era is floor division, for negative inputs too. */
  lemma EraIsFloor(z: int)
    ensures Era(z) == z / 146_097
    ensures 0 <= z - Era(z) * 146_097 < 146_097
  {
    if z < 0 {
      var q := (146_096 - z) / 146_097;
      assert 146_097 * q <= 146_096 - z < 146_097 * (q + 1);
      assert -146_097 * q <= z < 146_097 * (-q + 1);
    }
  }

  /** Days from 1 March of year 0 to 1 March of year `y`. */
  function MarchYears(y: int): int {
    365 * y + y / 4 - y / 100 + y / 400
  }

  /** A day of the 400-year era splits into century, four-year group, year and day. */
  lemma SplitEra(doe: int) returns (c: int, k: int, j: int, t: int)
    requires 0 <= doe < 146_097
    ensures 0 <= c <= 3 && 0 <= k <= 24 && 0 <= j <= 3 && 0 <= t <= 365
    ensures doe == 36_524 * c + 1_461 * k + 365 * j + t
    ensures t == 365 ==> j == 3 && (k < 24 || c == 3)
  {
    c := if doe / 36_524 < 3 then doe / 36_524 else 3;
    var r := doe - 36_524 * c;
    k := if r / 1_461 < 24 then r / 1_461 else 24;
    var s := r - 1_461 * k;
    j := if s / 365 < 3 then s / 365 else 3;
    t := s - 365 * j;
  }

  /** The three corrections of the year formula, in terms of the split: centuries and
      four-year groups passed, and one more near the end of a group or of the era. */
  lemma EraQuotients(doe: int, c: int, k: int, j: int, t: int)
    requires 0 <= c <= 3 && 0 <= k <= 24 && 0 <= j <= 3 && 0 <= t <= 365
    requires doe == 36_524 * c + 1_461 * k + 365 * j + t
    requires t == 365 ==> j == 3 && (k < 24 || c == 3)
    ensures doe / 1_460 == 25 * c + k + if 24 * c + k + 365 * j + t >= 1_460 then 1 else 0
    ensures doe / 36_524 - doe / 146_096 == c
  {
    assert doe == 1_460 * (25 * c + k) + (24 * c + k + 365 * j + t);
    assert doe / 146_096 == if doe == 146_096 then 1 else 0;
  }

  lemma YearOfEraAt(doe: int, y: int)
    requires 0 <= doe < 146_097 && 0 <= y
    requires 365 * y <= doe - doe / 1_460 + (doe / 36_524 - doe / 146_096) < 365 * (y + 1)
    ensures YearOfEra(doe) == y
  {
  }

  /** The year of the era is found exactly: what is left over is a day of that year, and the
      366th day exists only where the following February has 29 days. */
  lemma YearOfEraExact(doe: int)
    requires 0 <= doe < 146_097
    ensures 0 <= YearOfEra(doe) <= 399
    ensures DayOfYear(doe, YearOfEra(doe)) == doe - MarchYears(YearOfEra(doe))
    ensures 0 <= DayOfYear(doe, YearOfEra(doe)) <= 365
    ensures DayOfYear(doe, YearOfEra(doe)) == 365 ==> IsLeap(YearOfEra(doe) + 1)
  {
    var c, k, j, t := SplitEra(doe);
    EraQuotients(doe, c, k, j, t);
    var y := 100 * c + 4 * k + j;
    YearOfEraAt(doe, y);
    assert y / 4 == 25 * c + k && y / 100 == c && y / 400 == 0;
  }

  lemma QuotientStep(y: int, k: int)
    requires k > 0
    ensures y / k == (y - 1) / k + if y % k == 0 then 1 else 0
  {
    var q, r := (y - 1) / k, (y - 1) % k;
    assert y - 1 == k * q + r;
    if r == k - 1 {
      assert y == k * (q + 1);
    } else {
      assert y == k * q + (r + 1);
    }
    QuotientUnique(y, k, if r == k - 1 then q + 1 else q, if r == k - 1 then 0 else r + 1);
  }

  lemma QuotientUnique(a: int, k: int, q: int, r: int)
    requires k > 0 && a == k * q + r && 0 <= r < k
    ensures a / k == q && a % k == r
  {
    var q', r' := a / k, a % k;
    assert a == k * q' + r';
    if q' > q {
      Product(k, q' - q - 1);
    } else if q > q' {
      Product(k, q - q' - 1);
    }
  }

  lemma Product(k: int, d: int)
    requires k > 0 && d >= 0
    ensures k * (d + 1) >= k
  {
  }

  /** Counting years one at a time agrees with the March-based year sums. */
  lemma DaysBeforeYearSum(y: int)
    ensures DaysBeforeYear(y) == MarchYears(y - 1) - 719_468 + 306
    decreases if y >= 1970 then y - 1970 else 1970 - y
  {
    if y > 1970 {
      DaysBeforeYearSum(y - 1);
      MarchYearStep(y - 1);
    } else if y < 1970 {
      DaysBeforeYearSum(y + 1);
      MarchYearStep(y);
    }
  }

  lemma MarchYearStep(y: int)
    ensures MarchYears(y) == MarchYears(y - 1) + DaysInYear(y)
  {
    QuotientStep(y, 4);
    QuotientStep(y, 100);
    QuotientStep(y, 400);
    if y % 400 == 0 { QuotientUnique(y, 100, 4 * (y / 400), 0); }
    if y % 100 == 0 { QuotientUnique(y, 4, 25 * (y / 100), 0); }
  }

  function Leap(y: int): int {
    if IsLeap(y) then 1 else 0
  }

  /** Month lengths add up to the March-based `(153 mp + 2) / 5` of the conversion. */
  lemma MonthStarts(y: int, m: int)
    requires 1 <= m <= 12
    ensures DaysBeforeMonth(y, m) ==
            if m <= 2 then 31 * (m - 1) else 59 + Leap(y) + (153 * (m - 3) + 2) / 5
    decreases m
  {
    if m > 1 { MonthStarts(y, m - 1); }
  }

  lemma MonthEnds(y: int, m: int)
    requires 1 <= m <= 12
    ensures DaysBeforeMonth(y, m) + DaysInMonth(y, m) <= DaysInYear(y)
    ensures m < 12 ==> DaysBeforeMonth(y, m + 1) == DaysBeforeMonth(y, m) + DaysInMonth(y, m)
  {
    MonthStarts(y, m);
  }

  /** The month formula: `153 mp + 2` over 5 is the day of the March-based year on which the
      month begins, and the remaining days stay inside the month. */
  lemma MonthOfYearExact(doy: int, y: int)
    requires 0 <= doy <= 365
    requires doy == 365 ==> IsLeap(y + 1)
    ensures var d := DateInMarchYear(y, doy);
            && Valid(d)
            && d.year == (if d.month <= 2 then y + 1 else y)
            && DaysBeforeMonth(d.year, d.month) + d.day - 1
               == if d.month <= 2 then doy - 306 else doy + 59 + Leap(y)
  {
    var mp := (5 * doy + 2) / 153;
    assert 0 <= mp <= 11;
    var month := mp + if mp < 10 then 3 else -9;
    var year := y + if month <= 2 then 1 else 0;
    DayInMonth(doy, mp, year);
    MonthStarts(year, month);
  }

  lemma DayInMonth(doy: int, mp: int, year: int)
    requires 0 <= doy <= 365 && mp == (5 * doy + 2) / 153 && 0 <= mp <= 11
    requires doy == 365 ==> IsLeap(year)
    ensures 0 <= doy - (153 * mp + 2) / 5 < DaysInMonth(year, mp + if mp < 10 then 3 else -9)
  {
  }

  /** 400 years are 146097 days, and the leap rule repeats with them. */
  lemma MarchYearsPeriod(y: int, era: int)
    ensures MarchYears(y + 400 * era) == MarchYears(y) + 146_097 * era
    ensures IsLeap(y + 400 * era) == IsLeap(y)
  {
    QuotientUnique(y + 400 * era, 4, y / 4 + 100 * era, y % 4);
    QuotientUnique(y + 400 * era, 100, y / 100 + 4 * era, y % 100);
    QuotientUnique(y + 400 * era, 400, y / 400 + era, y % 400);
  }

  /** 1 March of `y` is 59 days, or 60, after its 1 January and 306 before the next. */
  lemma MarchYearStarts(y: int)
    ensures DaysBeforeYear(y) + 59 + Leap(y) == MarchYears(y) - 719_468
    ensures DaysBeforeYear(y + 1) == MarchYears(y) - 719_468 + 306
  {
    DaysBeforeYearSum(y);
    DaysBeforeYearSum(y + 1);
    MarchYearStep(y);
  }

  /** Counting back from day `doe` of an era gives that day. */
  lemma EraCountsBack(era: int, doe: int)
    requires 0 <= doe < 146_097
    ensures Valid(CivilInEra(era, doe))
    ensures DayNumber(CivilInEra(era, doe)) == 146_097 * era + doe - 719_468
  {
    YearOfEraExact(doe);
    var yoe := YearOfEra(doe);
    MarchYearsPeriod(yoe, era);
    MarchYearsPeriod(yoe + 1, era);
    MarchYearCountsBack(yoe + era * 400, DayOfYear(doe, yoe));
  }

  lemma MarchYearCountsBack(y: int, doy: int)
    requires 0 <= doy <= 365
    requires doy == 365 ==> IsLeap(y + 1)
    ensures Valid(DateInMarchYear(y, doy))
    ensures DayNumber(DateInMarchYear(y, doy)) == MarchYears(y) + doy - 719_468
  {
    MonthOfYearExact(doy, y);
    MarchYearStarts(y);
  }

  /** Counting back from the converted date gives the day number converted. */
  lemma CivilCountsBack(n: int)
    ensures Valid(CivilFromDays(n))
    ensures DayNumber(CivilFromDays(n)) == n
  {
    var z := n + 719_468;
    EraIsFloor(z);
    EraCountsBack(Era(z), z - Era(z) * 146_097);
  }

  /** The reference calendar's next day is the next day number. */
  lemma NextDayCounts(d: Date)
    requires Valid(d)
    ensures DayNumber(NextDay(d)) == DayNumber(d) + 1
  {
    if d.day == DaysInMonth(d.year, d.month) && d.month == 12 {
      MonthStarts(d.year, 12);
      NextYear(d.year);
    }
  }

  lemma NextYear(y: int)
    ensures DaysBeforeYear(y + 1) == DaysBeforeYear(y) + DaysInYear(y)
  {
  }

  /** Day numbers order valid dates as year, month and day do. */
  lemma DayNumberMonotone(a: Date, b: Date)
    requires Valid(a) && Valid(b) && Before(a, b)
    ensures DayNumber(a) < DayNumber(b)
  {
    if a.year < b.year {
      MonthEnds(a.year, a.month);
      NextYear(a.year);
      YearsMonotone(a.year + 1, b.year);
      MonthsMonotone(b.year, 1, b.month);
    } else if a.month < b.month {
      MonthEnds(a.year, a.month);
      MonthsMonotone(a.year, a.month + 1, b.month);
    }
  }

  lemma MonthsMonotone(y: int, m: int, m': int)
    requires 1 <= m <= m' <= 12
    ensures DaysBeforeMonth(y, m) <= DaysBeforeMonth(y, m')
    decreases m' - m
  {
    if m < m' { MonthsMonotone(y, m, m' - 1); }
  }

  lemma YearsMonotone(y: int, y': int)
    requires y <= y'
    ensures DaysBeforeYear(y) <= DaysBeforeYear(y')
    decreases y' - y
  {
    if y < y' {
      YearsMonotone(y, y' - 1);
      NextYear(y' - 1);
    }
  }

  lemma DatesWithOneNumber(a: Date, b: Date)
    requires Valid(a) && Valid(b) && DayNumber(a) == DayNumber(b)
    ensures a == b
  {
    if Before(a, b) {
      DayNumberMonotone(a, b);
    } else if Before(b, a) {
      DayNumberMonotone(b, a);
    }
  }

  // ----- Main results -----

  lemma CivilStartsAtEpoch()
    ensures CivilFromDays(0) == Date(1970, 1, 1)
  {
    assert Era(719_468) == 4;
    assert YearOfEra(135_080) == 369;
    assert DayOfYear(135_080, 369) == 306;
  }

  /** The closed form is the step-by-step calendar: from every day number, negative ones
      included, it moves to the next Gregorian day. */
  lemma CivilIsStepByStep(n: int)
    ensures Valid(CivilFromDays(n))
    ensures CivilFromDays(n + 1) == NextDay(CivilFromDays(n))
  {
    CivilCountsBack(n);
    CivilCountsBack(n + 1);
    NextDayCounts(CivilFromDays(n));
    DatesWithOneNumber(CivilFromDays(n + 1), NextDay(CivilFromDays(n)));
  }

  /** Counting days undoes the conversion on both sides: a bijection between the integers and
      the valid dates. */
  lemma CivilIsBijection(n: int, d: Date)
    requires Valid(d)
    ensures Valid(CivilFromDays(n)) && DayNumber(CivilFromDays(n)) == n
    ensures CivilFromDays(DayNumber(d)) == d
  {
    CivilCountsBack(n);
    CivilCountsBack(DayNumber(d));
    DatesWithOneNumber(CivilFromDays(DayNumber(d)), d);
  }

  /** Later days have later dates, and only they do. */
  lemma CivilIsStrictlyIncreasing(m: int, n: int)
    ensures m < n <==> Before(CivilFromDays(m), CivilFromDays(n))
  {
    CivilCountsBack(m);
    CivilCountsBack(n);
    var a, b := CivilFromDays(m), CivilFromDays(n);
    if Before(a, b) {
      DayNumberMonotone(a, b);
    } else if Before(b, a) {
      DayNumberMonotone(b, a);
    }
  }

  /** 146097 days later the date is the same one, exactly 400 years on. */
  lemma CivilPeriod(n: int)
    ensures var d := CivilFromDays(n);
            CivilFromDays(n + 146_097) == Date(d.year + 400, d.month, d.day)
  {
    CivilCountsBack(n);
    CivilCountsBack(n + 146_097);
    var d := CivilFromDays(n);
    DayNumberPeriod(d);
    DatesWithOneNumber(CivilFromDays(n + 146_097), Date(d.year + 400, d.month, d.day));
  }

  lemma DayNumberPeriod(d: Date)
    requires Valid(d)
    ensures var d' := Date(d.year + 400, d.month, d.day);
            Valid(d') && DayNumber(d') == DayNumber(d) + 146_097
  {
    MarchYearsPeriod(d.year, 1);
    MarchYearsPeriod(d.year - 1, 1);
    MonthStarts(d.year, d.month);
    MonthStarts(d.year + 400, d.month);
    DaysBeforeYearSum(d.year);
    DaysBeforeYearSum(d.year + 400);
  }
}
