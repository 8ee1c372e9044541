/** Formatting of Unix timestamps in machine integers, with a parser that undoes it. */
module Timestamps {
  import opened Wrappers
  import opened Bounds
  import opened Calendar
  import opened Text

  /** 1 January 10000, the first second whose year needs five digits. */
  const YEAR_10000 := 253_402_300_800

  newtype i64 = x: int | -0x8000_0000_0000_0000 <= x <= 0x7FFF_FFFF_FFFF_FFFF
  newtype u32 = x: int | 0 <= x <= 0xFFFF_FFFF
  newtype u64 = x: int | 0 <= x <= 0xFFFF_FFFF_FFFF_FFFF

  /** Signed machine division; the only overflowing case needs a divisor of -1. */
  function Quotient(a: i64, b: i64): (q: i64)
    requires b > 0
    ensures q as int == TruncDiv(a as int, b as int)
  {
    QuotientSmaller(a as int, b as int);
    TruncDiv(a as int, b as int) as i64
  }

  lemma QuotientSmaller(a: int, b: int)
    requires b > 0
    ensures a >= 0 ==> 0 <= TruncDiv(a, b) <= a
    ensures a < 0 ==> a <= TruncDiv(a, b) <= 0
  {
    if a >= 0 { NaturalQuotient(a, b); } else { NaturalQuotient(-a, b); }
  }

  lemma NaturalQuotient(m: nat, b: int)
    requires b > 0
    ensures 0 <= m / b <= m
  {
    var q := m / b;
    assert m == b * q + m % b;
    Grows(b, q);
  }

  lemma Grows(b: int, q: int)
    requires b > 0 && q >= 0
    ensures b * q >= q
  {
  }

  function YearOfEra64(doe: i64): (yoe: i64)
    requires 0 <= doe < 146_097
    ensures yoe as int == YearOfEra(doe as int) && 0 <= yoe <= 399
  {
    YearOfEraExact(doe as int);
    Quotient(doe - Quotient(doe, 1_460) + Quotient(doe, 36_524) - Quotient(doe, 146_096), 365)
  }

  function DayOfYear64(doe: i64, yoe: i64): (doy: i64)
    requires 0 <= doe < 146_097 && 0 <= yoe <= 399
    ensures doy as int == DayOfYear(doe as int, yoe as int)
  {
    doe - (365 * yoe + Quotient(yoe, 4) - Quotient(yoe, 100))
  }

  /** The casts of month and day to `u32` keep their values. */
  function DateInMarchYear64(year: i64, doy: i64): (r: (i64, u32, u32))
    requires 0 <= doy <= 365 && (doy == 365 ==> IsLeap(year as int + 1))
    requires -0x4000_0000_0000_0000 <= year < 0x4000_0000_0000_0000
    ensures Date(r.0 as int, r.1 as int, r.2 as int) == DateInMarchYear(year as int, doy as int)
  {
    MonthOfYearExact(doy as int, year as int);
    var mp := Quotient(5 * doy + 2, 153);
    var day := doy - Quotient(153 * mp + 2, 5) + 1;
    var month := mp + if mp < 10 then 3 else -9;
    (year + (if month <= 2 then 1 else 0), month as u32, day as u32)
  }

  function Era64(z: i64): (era: i64)
    requires z >= -0x8000_0000_0000_0000 + 146_096
    ensures era as int == Era(z as int)
    ensures (z as int) - 146_097 < era as int * 146_097 <= z as int
    ensures -0x10_0000_0000_0000 <= era < 0x10_0000_0000_0000
  {
    EraIsFloor(z as int);
    Quotient(if z >= 0 then z else z - 146_096, 146_097)
  }

  function CivilInEra64(era: i64, doe: i64): (r: (i64, u32, u32))
    requires 0 <= doe < 146_097
    requires -0x10_0000_0000_0000 <= era < 0x10_0000_0000_0000
    ensures Date(r.0 as int, r.1 as int, r.2 as int) == CivilInEra(era as int, doe as int)
  {
    YearOfEraExact(doe as int);
    var yoe := YearOfEra64(doe);
    MarchYearsPeriod(yoe as int + 1, era as int);
    DateInMarchYear64(yoe + era * 400, DayOfYear64(doe, yoe))
  }

  function DayOfEra64(z: i64, era: i64): (doe: i64)
    requires z >= -0x8000_0000_0000_0000 + 146_097
    requires (z as int) - 146_097 < era as int * 146_097 <= z as int
    ensures doe as int == z as int - era as int * 146_097 && 0 <= doe < 146_097
  {
    z - era * 146_097
  }

  /** Every intermediate value is an `i64`: once the first addition fits, nothing overflows. */
  function CivilFromDays64(days: i64): (r: (i64, u32, u32))
    requires days as int + 719_468 <= I64_MAX
    ensures Date(r.0 as int, r.1 as int, r.2 as int) == CivilFromDays(days as int)
  {
    var z := days + 719_468;
    assert CivilFromDays(days as int) == CivilInEra(Era(z as int), z as int - Era(z as int) * 146_097);
    var era := Era64(z);
    CivilInEra64(era, DayOfEra64(z, era))
  }

  // ----- Formatting -----

  datatype Stamp = Stamp(date: Date, hour: nat, minute: nat, second: nat)

  ghost predicate WellFormed(t: Stamp) {
    t.date.year >= 0 && Valid(t.date) && t.hour < 24 && t.minute < 60 && t.second < 60
  }

  /** The seconds a stamp names, counted on the reference calendar. */
  function Seconds(t: Stamp): int
    requires 1 <= t.date.month <= 12
  {
    DayNumber(t.date) * 86_400 + Clock(t)
  }

  function Clock(t: Stamp): nat {
    t.hour * 3_600 + t.minute * 60 + t.second
  }

  /** Two-digit numbers, each after its separator, and the zone. */
  function RenderGroups(seps: string, ns: seq<nat>): string
    requires |seps| == |ns|
  {
    if ns == [] then " UTC" else [seps[0]] + (Padded(ns[0], 2) + RenderGroups(seps[1..], ns[1..]))
  }

  /** The five two-digit fields, in printing order, and the separators before them. */
  function Fields(t: Stamp): seq<nat>
    requires t.date.month >= 0 && t.date.day >= 0
  {
    [t.date.month, t.date.day, t.hour, t.minute, t.second]
  }

  const SEPARATORS := "-- ::"

  function Render(t: Stamp): string
    requires t.date.year >= 0 && t.date.month >= 0 && t.date.day >= 0
  {
    Padded(t.date.year, 4) + RenderGroups(SEPARATORS, Fields(t))
  }

  /** `format_unix_timestamp`, in the program's own integer types: defined for every `u64`. Its
      fields are a well-formed stamp that counts back to the input. */
  function StampOf(seconds: u64): (t: Stamp)
    ensures WellFormed(t) && Seconds(t) == seconds as int
  {
    var days := (seconds / 86_400) as i64;
    var secondsOfDay := seconds % 86_400;
    var (year, month, day) := CivilFromDays64(days);
    NotBeforeEpoch(days as int);
    var hour := secondsOfDay / 3_600;
    var minute := secondsOfDay % 3_600 / 60;
    var second := secondsOfDay % 60;
    ClockFields(secondsOfDay as int);
    Stamp(Date(year as int, month as int, day as int), hour as nat, minute as nat, second as nat)
  }

  function FormatUnixTimestamp(seconds: u64): (text: string) {
    Render(StampOf(seconds))
  }

  lemma NotBeforeEpoch(days: int)
    requires days >= 0
    ensures var d := CivilFromDays(days); d.year >= 1970 && Valid(d) && DayNumber(d) == days
  {
    CivilCountsBack(days);
    var d, epoch := CivilFromDays(days), Date(1970, 1, 1);
    if Before(d, epoch) { DayNumberMonotone(d, epoch); }
  }

  lemma ClockFields(n: int)
    requires 0 <= n < 86_400
    ensures n == n / 3_600 * 3_600 + n % 3_600 / 60 * 60 + n % 60
  {
    QuotientUnique(n, 60, 60 * (n / 3_600) + n % 3_600 / 60, n % 3_600 % 60);
  }

  // ----- Reading a timestamp back -----

  function ParseField(s: string): Option<nat> {
    if s != [] && AllDigits(s) then Some(NatOf(s)) else None
  }

  function ParseGroups(seps: string, s: string): (r: Option<seq<nat>>)
    ensures r.Some? ==> |r.value| == |seps|
  {
    if seps == "" then (if s == " UTC" then Some([]) else None)
    else if |s| < 3 || s[0] != seps[0] then None
    else
      match (ParseField(s[1..3]), ParseGroups(seps[1..], s[3..]))
      case (Some(n), Some(ns)) => Some([n] + ns)
      case _ => None
  }

  /** The seconds a text of the form `Y-MM-DD hh:mm:ss UTC` names; the year has any length. */
  function ParseTimestamp(s: string): Option<int> {
    if |s| < 19 then None
    else
      var k := |s| - 19;
      match (ParseField(s[..k]), ParseGroups(SEPARATORS, s[k..]))
      case (Some(year), Some(f)) =>
        var t := Stamp(Date(year, f[0], f[1]), f[2], f[3], f[4]);
        if Valid(t.date) && t.hour < 24 && t.minute < 60 && t.second < 60 then Some(Seconds(t)) else None
      case _ => None
  }

  lemma {:induction false} ParseGroupsBack(seps: string, ns: seq<nat>)
    requires |seps| == |ns| && forall i :: 0 <= i < |ns| ==> ns[i] < 100
    ensures |RenderGroups(seps, ns)| == 3 * |ns| + 4
    ensures ParseGroups(seps, RenderGroups(seps, ns)) == Some(ns)
  {
    if ns != [] {
      assert Pow10(2) == 100;
      PaddedWidth(ns[0], 2);
      NatOfPadded(ns[0], 2);
      ParseGroupsBack(seps[1..], ns[1..]);
      var g := RenderGroups(seps, ns);
      assert g[1..3] == Padded(ns[0], 2);
      assert g[3..] == RenderGroups(seps[1..], ns[1..]);
      assert [ns[0]] + ns[1..] == ns;
    }
  }

  lemma ParseRendered(t: Stamp)
    requires WellFormed(t)
    ensures ParseTimestamp(Render(t)) == Some(Seconds(t))
  {
    ParseGroupsBack(SEPARATORS, Fields(t));
    NatOfPadded(t.date.year, 4);
    var text, k := Render(t), |Padded(t.date.year, 4)|;
    assert text[..k] == Padded(t.date.year, 4) && text[k..] == RenderGroups(SEPARATORS, Fields(t));
  }

  /** No second is lost or merged: the printed fields recompose to exactly the input, for every
      64-bit timestamp. */
  lemma FormatRoundTrip(seconds: u64)
    ensures ParseTimestamp(FormatUnixTimestamp(seconds)) == Some(seconds as int)
  {
    ParseRendered(StampOf(seconds));
  }

  /** What is printed, character by character: a year of four or more digits, and then two digits each
      for month, day, hour, minute and second between hyphens, a space and colons. */
  ghost predicate HasTimestampShape(text: string) {
    var k := |text| - 19;
    && k >= 4 && text[k] == '-' && text[k + 3] == '-' && text[k + 6] == ' ' && text[k + 9] == ':'
    && text[k + 12] == ':' && text[k + 15..] == " UTC"
    && forall i :: 0 <= i < k + 15 && i != k && i != k + 3 && i != k + 6 && i != k + 9 && i != k + 12 ==>
         '0' <= text[i] <= '9'
  }

  /** Two-digit numbers, each after a separator, lie three characters apart. */
  lemma {:induction false} GroupsEnd(seps: string, ns: seq<nat>)
    requires |seps| == |ns| && forall j :: 0 <= j < |ns| ==> ns[j] < 100
    ensures |RenderGroups(seps, ns)| == 3 * |ns| + 4 && RenderGroups(seps, ns)[3 * |ns|..] == " UTC"
  {
    if ns != [] {
      GroupInFront(seps, ns);
      GroupsEnd(seps[1..], ns[1..]);
      var g, rest := RenderGroups(seps, ns), RenderGroups(seps[1..], ns[1..]);
      assert g[3 * |ns|..] == g[3..][3 * (|ns| - 1)..];
    }
  }

  lemma GroupInFront(seps: string, ns: seq<nat>)
    requires |seps| == |ns| > 0 && ns[0] < 100
    ensures var g := RenderGroups(seps, ns);
            && |g| >= 3 && g[0] == seps[0] && IsDigit(g[1]) && IsDigit(g[2])
            && g[3..] == RenderGroups(seps[1..], ns[1..])
  {
    assert Pow10(2) == 100;
    PaddedWidth(ns[0], 2);
    var p := Padded(ns[0], 2);
    assert IsDigit(p[0]) && IsDigit(p[1]);
  }

  lemma {:induction false} GroupsFrom(seps: string, ns: seq<nat>, i: nat)
    requires |seps| == |ns| && i <= |ns| && forall j :: 0 <= j < |ns| ==> ns[j] < 100
    ensures |RenderGroups(seps, ns)| == 3 * |ns| + 4
    ensures RenderGroups(seps, ns)[3 * i..] == RenderGroups(seps[i..], ns[i..])
  {
    GroupsEnd(seps, ns);
    var g := RenderGroups(seps, ns);
    if i == 0 {
      assert seps[0..] == seps && ns[0..] == ns && g[0..] == g;
    } else {
      GroupInFront(seps, ns);
      GroupsFrom(seps[1..], ns[1..], i - 1);
      assert seps[1..][i - 1..] == seps[i..] && ns[1..][i - 1..] == ns[i..];
      assert g[3 * i..] == g[3..][3 * (i - 1)..];
    }
  }

  lemma GroupsAt(seps: string, ns: seq<nat>, i: nat)
    requires |seps| == |ns| && i < |ns| && forall j :: 0 <= j < |ns| ==> ns[j] < 100
    ensures var g := RenderGroups(seps, ns);
            |g| == 3 * |ns| + 4 && g[3 * i] == seps[i] && IsDigit(g[3 * i + 1]) && IsDigit(g[3 * i + 2])
  {
    GroupsFrom(seps, ns, i);
    GroupInFront(seps[i..], ns[i..]);
    var g := RenderGroups(seps, ns);
    var h := g[3 * i..];
    assert h[0] == g[3 * i] && h[1] == g[3 * i + 1] && h[2] == g[3 * i + 2];
  }

  lemma RenderedShape(t: Stamp)
    requires WellFormed(t)
    ensures HasTimestampShape(Render(t))
  {
    var year, f := Padded(t.date.year, 4), Fields(t);
    var k, g := |year|, RenderGroups(SEPARATORS, f);
    GroupsEnd(SEPARATORS, f);
    GroupsAt(SEPARATORS, f, 0);
    GroupsAt(SEPARATORS, f, 1);
    GroupsAt(SEPARATORS, f, 2);
    GroupsAt(SEPARATORS, f, 3);
    GroupsAt(SEPARATORS, f, 4);
    GroupsShape(year, g, Render(t));
  }

  lemma GroupsShape(year: string, g: string, text: string)
    requires AllDigits(year) && |year| >= 4 && |g| == 19 && text == year + g
    requires g[0] == '-' && g[3] == '-' && g[6] == ' ' && g[9] == ':' && g[12] == ':' && g[15..] == " UTC"
    requires IsDigit(g[1]) && IsDigit(g[2]) && IsDigit(g[4]) && IsDigit(g[5]) && IsDigit(g[7]) && IsDigit(g[8])
    requires IsDigit(g[10]) && IsDigit(g[11]) && IsDigit(g[13]) && IsDigit(g[14])
    ensures HasTimestampShape(text)
  {
    var k := |year|;
    assert text[k + 15..] == g[15..];
    forall i | 0 <= i < k + 15 && i != k && i != k + 3 && i != k + 6 && i != k + 9 && i != k + 12
      ensures '0' <= text[i] <= '9'
    {
      if i < k { assert text[i] == year[i]; } else { assert text[i] == g[i - k]; }
    }
  }

  /** Every timestamp is printed in that shape. */
  lemma PrintedShape(seconds: u64)
    ensures HasTimestampShape(FormatUnixTimestamp(seconds))
  {
    RenderedShape(StampOf(seconds));
  }

  // ----- Sorting timestamps as strings -----

  /** A fixed-width number decides the order before what follows it. */
  lemma FieldOrder(a: nat, b: nat, width: nat, u: string, v: string)
    requires width >= 1 && a < Pow10(width) && b < Pow10(width)
    ensures Less(Padded(a, width) + u, Padded(b, width) + v) <==> a < b || (a == b && Less(u, v))
  {
    PaddedWidth(a, width);
    PaddedWidth(b, width);
    NatOfPadded(a, width);
    NatOfPadded(b, width);
    DigitOrder(Padded(a, width), Padded(b, width));
    LessConcat(Padded(a, width), Padded(b, width), u, v);
  }

  ghost predicate LexBefore(a: seq<nat>, b: seq<nat>)
    requires |a| == |b|
  {
    a != [] && (a[0] < b[0] || (a[0] == b[0] && LexBefore(a[1..], b[1..])))
  }

  lemma {:induction false} GroupsOrder(seps: string, a: seq<nat>, b: seq<nat>)
    requires |seps| == |a| == |b|
    requires forall i :: 0 <= i < |a| ==> a[i] < 100 && b[i] < 100
    ensures Less(RenderGroups(seps, a), RenderGroups(seps, b)) <==> LexBefore(a, b)
  {
    if a == [] {
      LessTrichotomy(" UTC", " UTC");
    } else {
      GroupsOrder(seps[1..], a[1..], b[1..]);
      var u, v := RenderGroups(seps[1..], a[1..]), RenderGroups(seps[1..], b[1..]);
      assert Pow10(2) == 100;
      FieldOrder(a[0], b[0], 2, u, v);
      LessConcat([seps[0]], [seps[0]], Padded(a[0], 2) + u, Padded(b[0], 2) + v);
    }
  }

  lemma FieldsOrder(a: Stamp, b: Stamp)
    requires WellFormed(a) && WellFormed(b)
    ensures LexBefore(Fields(a), Fields(b)) <==>
            a.date.month < b.date.month
            || (a.date.month == b.date.month
                && (a.date.day < b.date.day || (a.date.day == b.date.day && Clock(a) < Clock(b))))
  {
    var f, g := Fields(a), Fields(b);
    assert f[1..][1..] == [a.hour, a.minute, a.second] && g[1..][1..] == [b.hour, b.minute, b.second];
    ClockOrder(a, b);
  }

  lemma ClockOrder(a: Stamp, b: Stamp)
    requires WellFormed(a) && WellFormed(b)
    ensures LexBefore([a.hour, a.minute, a.second], [b.hour, b.minute, b.second]) <==> Clock(a) < Clock(b)
  {
    var f, g := [a.hour, a.minute, a.second], [b.hour, b.minute, b.second];
    assert f[1..][1..] == [a.second] && g[1..][1..] == [b.second];
    assert LexBefore(f[1..][1..], g[1..][1..]) <==> a.second < b.second;
  }

  /** Rendered stamps with four-digit years are ordered as their dates, then their clocks. */
  lemma RenderOrder(a: Stamp, b: Stamp)
    requires WellFormed(a) && WellFormed(b) && a.date.year <= 9_999 && b.date.year <= 9_999
    ensures Less(Render(a), Render(b)) <==>
            Before(a.date, b.date) || (a.date == b.date && Clock(a) < Clock(b))
  {
    GroupsOrder(SEPARATORS, Fields(a), Fields(b));
    FieldsOrder(a, b);
    assert Pow10(4) == 10_000;
    FieldOrder(a.date.year, b.date.year, 4,
               RenderGroups(SEPARATORS, Fields(a)), RenderGroups(SEPARATORS, Fields(b)));
  }

  lemma SecondsOrder(a: Stamp, b: Stamp)
    requires WellFormed(a) && WellFormed(b)
    ensures Seconds(a) < Seconds(b) <==>
            Before(a.date, b.date) || (a.date == b.date && Clock(a) < Clock(b))
  {
    if Before(a.date, b.date) {
      DayNumberMonotone(a.date, b.date);
    } else if Before(b.date, a.date) {
      DayNumberMonotone(b.date, a.date);
    }
  }

  lemma YearDigits(t: Stamp)
    requires WellFormed(t)
    ensures t.date.year <= 9_999 <==> Seconds(t) < YEAR_10000
  {
    var first := Date(10_000, 1, 1);
    DaysBeforeYearSum(10_000);
    assert DayNumber(first) == 2_932_897;
    if t.date.year <= 9_999 {
      DayNumberMonotone(t.date, first);
    } else if Before(first, t.date) {
      DayNumberMonotone(first, t.date);
    }
  }

  /** Before the year 10000, sorting the texts sorts the times. */
  lemma TextOrderIsTimeOrder(a: u64, b: u64)
    requires a as int < 253_402_300_800 && b as int < 253_402_300_800
    ensures Less(FormatUnixTimestamp(a), FormatUnixTimestamp(b)) <==> a < b
  {
    YearDigits(StampOf(a));
    YearDigits(StampOf(b));
    RenderOrder(StampOf(a), StampOf(b));
    SecondsOrder(StampOf(a), StampOf(b));
  }

  ghost predicate SortsAsText(a: u64, b: u64) {
    Less(FormatUnixTimestamp(a), FormatUnixTimestamp(b)) <==> a < b
  }

  /** That bound is exact: a range of timestamps sorts as text if and only if it ends before it. */
  lemma TextOrderBound(limit: u64)
    ensures (forall a: u64, b: u64 :: a <= limit && b <= limit ==> SortsAsText(a, b))
            <==> limit as int < 253_402_300_800
  {
    if limit as int < YEAR_10000 {
      forall a: u64, b: u64 | a <= limit && b <= limit
        ensures SortsAsText(a, b)
      {
        TextOrderIsTimeOrder(a, b);
      }
    } else {
      FiveDigitYearMisplaced(253_402_300_800, 253_402_300_799);
    }
  }

  lemma FiveDigitYearMisplaced(first: u64, last: u64)
    requires first as int == YEAR_10000 && last as int == YEAR_10000 - 1
    ensures !SortsAsText(first, last)
  {
    FiveDigitYearSortsFirst(StampOf(first), StampOf(last));
  }

  /** The first text with a five-digit year sorts before the last one with four digits. */
  lemma FiveDigitYearSortsFirst(first: Stamp, last: Stamp)
    requires WellFormed(first) && Seconds(first) == YEAR_10000
    requires WellFormed(last) && Seconds(last) == YEAR_10000 - 1
    ensures Less(Render(first), Render(last))
  {
    YearsThere();
    YearAt(first, 10_000);
    YearAt(last, 9_999);
    FiveDigitsBeforeFour(first.date.year, last.date.year,
                         RenderGroups(SEPARATORS, Fields(first)), RenderGroups(SEPARATORS, Fields(last)));
  }

  lemma YearsThere()
    ensures DaysBeforeYear(10_000) * 86_400 == YEAR_10000
    ensures DaysBeforeYear(9_999) < DaysBeforeYear(10_000) < DaysBeforeYear(10_001)
  {
    DaysBeforeYearSum(9_999);
    DaysBeforeYearSum(10_000);
    DaysBeforeYearSum(10_001);
  }

  lemma FiveDigitsBeforeFour(five: nat, four: nat, u: string, v: string)
    requires five == 10_000 && four == 9_999
    ensures Less(Padded(five, 4) + u, Padded(four, 4) + v)
  {
    FiveDigitText(five, five / 10);
    assert Padded(five / 10, 4) + "0" + u == Padded(five / 10, 4) + ("0" + u);
    assert Pow10(4) == 10_000;
    FieldOrder(five / 10, four, 4, "0" + u, v);
  }

  lemma YearAt(t: Stamp, y: int)
    requires WellFormed(t)
    requires DaysBeforeYear(y) * 86_400 <= Seconds(t) < DaysBeforeYear(y + 1) * 86_400
    ensures t.date.year == y
  {
    var first, next := Date(y, 1, 1), Date(y + 1, 1, 1);
    if Before(t.date, first) {
      DayNumberMonotone(t.date, first);
    } else if Before(next, t.date) {
      DayNumberMonotone(next, t.date);
    }
  }

  lemma FiveDigitText(five: nat, tenth: nat)
    requires five == 10_000 && tenth == 1_000
    ensures Padded(five, 4) == Padded(tenth, 4) + "0"
  {
    assert Pow10(3) == 1_000 && Pow10(4) == 10_000;
    DecimalWidth(tenth, 3);
    DecimalWidth(tenth, 4);
    DecimalWidth(five, 4);
    assert Decimal(five) == Decimal(tenth) + [DigitChar(0)];
  }
}
