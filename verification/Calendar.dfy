/** Day numbers, dates of the proleptic Gregorian calendar, and the date arithmetic built on them. */
module Calendar {
  import opened Numbers
  import opened Texts

  datatype Date = Date(y: int, m: int, d: int)

  predicate IsLeap(y: int) {
    (y % 4 == 0 && y % 100 != 0) || y % 400 == 0
  }

  function YearLength(y: int): nat {
    if IsLeap(y) then 366 else 365
  }

  const MONTHS: seq<nat> := [31, 28, 31, 30, 31, 30, 31, 31, 30, 31, 30, 31]

  /** Entry of the month table; a month outside it counts 30 days. */
  function MonthLength(y: int, m: int): (n: nat)
    ensures 28 <= n <= 31
  {
    if m == 2 then (if IsLeap(y) then 29 else 28) else if 1 <= m <= 12 then MONTHS[m - 1] else 30
  }

  predicate IsDate(t: Date) {
    1 <= t.m <= 12 && 1 <= t.d <= MonthLength(t.y, t.m)
  }

  // ----- Day numbers -----

  /** Days from 1970-01-01 to the first day of `y`, year by year; negative before 1970. */
  function DaysBeforeYear(y: int): int
    decreases if y < 1970 then 1970 - y else y - 1970
  {
    if y == 1970 then 0
    else if y > 1970 then DaysBeforeYear(y - 1) + YearLength(y - 1)
    else DaysBeforeYear(y + 1) - YearLength(y)
  }

  function DaysBeforeMonth(y: int, m: int): nat
    decreases m
  {
    if m <= 1 then 0 else DaysBeforeMonth(y, m - 1) + MonthLength(y, m - 1)
  }

  /** `(m - 1) as usize`: how many months are counted before month `m`, far too many when there is no such month. */
  function MonthsBefore(m: int): nat {
    if m >= 1 then m - 1 else (m - 1) % TWO_64
  }

  function DayNumber(t: Date): int {
    DaysBeforeYear(t.y) + DaysBeforeMonth(t.y, MonthsBefore(t.m) + 1) + t.d - 1
  }

  /** A quotient grows by one exactly at the multiples. */
  lemma QuotientStep(y: int, k: int)
    requires k == 4 || k == 100 || k == 400
    ensures y / k == (y - 1) / k + (if y % k == 0 then 1 else 0)
  {
    if k == 4 {
    } else if k == 100 {
    } else {
    }
  }

  lemma Hundredth(y: int)
    requires y % 100 == 0
    ensures y % 4 == 0
  {
    assert y == 4 * (25 * (y / 100));
  }

  lemma FourHundredth(y: int)
    requires y % 400 == 0
    ensures y % 100 == 0
  {
    assert y == 100 * (4 * (y / 400));
  }

  /** Leap days in the years before `y`, counted from the year 1, by the Gregorian rule. */
  function LeapDaysBefore(y: int): int {
    (y - 1) / 4 - (y - 1) / 100 + (y - 1) / 400
  }

  lemma LeapDaysStep(y: int)
    ensures LeapDaysBefore(y + 1) == LeapDaysBefore(y) + YearLength(y) - 365
  {
    QuotientStep(y, 4);
    QuotientStep(y, 100);
    QuotientStep(y, 400);
    if y % 100 == 0 { Hundredth(y); }
    if y % 400 == 0 { FourHundredth(y); }
  }

  /** The closed Gregorian formula, for every integer year. */
  lemma {:induction false} ClosedForm(y: int)
    ensures DaysBeforeYear(y) == 365 * (y - 1970) + LeapDaysBefore(y) - LeapDaysBefore(1970)
    decreases if y < 1970 then 1970 - y else y - 1970
  {
    if y > 1970 {
      ClosedForm(y - 1);
      LeapDaysStep(y - 1);
    } else if y < 1970 {
      ClosedForm(y + 1);
      LeapDaysStep(y);
    }
  }

  /** Twelve months make the year. */
  lemma MonthsMakeYear(y: int)
    ensures DaysBeforeMonth(y, 13) == YearLength(y)
  {
    assert DaysBeforeMonth(y, 5) == 92 + MonthLength(y, 2);
    assert DaysBeforeMonth(y, 9) == DaysBeforeMonth(y, 5) + 123;
  }

  lemma {:induction false} MonthsIncrease(y: int, m: int, k: int)
    requires 1 <= m < k
    ensures DaysBeforeMonth(y, m) + MonthLength(y, m) <= DaysBeforeMonth(y, k)
    decreases k
  {
    if m < k - 1 {
      MonthsIncrease(y, m, k - 1);
    }
  }

  lemma {:induction false} YearsIncrease(y: int, z: int)
    requires y < z
    ensures DaysBeforeYear(y) + YearLength(y) <= DaysBeforeYear(z)
    decreases z - y
  {
    if y + 1 < z {
      YearsIncrease(y + 1, z);
    }
  }

  lemma WithinYear(t: Date)
    requires IsDate(t)
    ensures DaysBeforeYear(t.y) <= DayNumber(t) < DaysBeforeYear(t.y) + YearLength(t.y)
  {
    MonthsMakeYear(t.y);
    MonthsIncrease(t.y, t.m, 13);
  }

  /** Two valid dates have the same day number only when they are the same date. */
  lemma DayNumberInjective(s: Date, t: Date)
    requires IsDate(s) && IsDate(t)
    ensures DayNumber(s) == DayNumber(t) <==> s == t
  {
    WithinYear(s);
    WithinYear(t);
    if s.y < t.y {
      YearsIncrease(s.y, t.y);
    } else if t.y < s.y {
      YearsIncrease(t.y, s.y);
    } else if s.m < t.m {
      MonthsIncrease(s.y, s.m, t.m);
    } else if t.m < s.m {
      MonthsIncrease(s.y, t.m, s.m);
    }
  }

  /** Four hundred years are exactly 146097 days. */
  lemma FourCenturies(t: Date)
    ensures DayNumber(Date(t.y + 400, t.m, t.d)) == DayNumber(t) + 146097
  {
    ClosedForm(t.y);
    ClosedForm(t.y + 400);
    LeapDaysInFourCenturies(t.y);
    FourCenturiesMonths(t.y, MonthsBefore(t.m) + 1);
  }

  lemma LeapDaysInFourCenturies(y: int)
    ensures LeapDaysBefore(y + 400) == LeapDaysBefore(y) + 97
  {
    assert (y - 1 + 400) / 4 == (y - 1) / 4 + 100;
    assert (y - 1 + 400) / 100 == (y - 1) / 100 + 4;
    assert (y - 1 + 400) / 400 == (y - 1) / 400 + 1;
  }

  lemma {:induction false} FourCenturiesMonths(y: int, m: int)
    ensures DaysBeforeMonth(y + 400, m) == DaysBeforeMonth(y, m)
    decreases m
  {
    if m > 1 {
      FourCenturiesMonths(y, m - 1);
      assert IsLeap(y + 400) == IsLeap(y) by {
        assert (y + 400) % 4 == y % 4 && (y + 400) % 100 == y % 100 && (y + 400) % 400 == y % 400;
      }
    }
  }

  // ----- The loops -----

  /** Counts years one by one, forward or backward from 1970, then months, then days. */
  method YmdToDays(y: int, m: int, d: int) returns (days: int)
    ensures days == DayNumber(Date(y, m, d))
  {
    days := 0;
    if y >= 1970 {
      var yr := 1970;
      while yr < y
        invariant 1970 <= yr <= y && days == DaysBeforeYear(yr)
      {
        days := days + if IsLeap(yr) then 366 else 365;
        yr := yr + 1;
      }
    } else {
      var yr := y;
      while yr < 1970
        invariant y <= yr <= 1970 && days == DaysBeforeYear(y) - DaysBeforeYear(yr)
      {
        days := days - if IsLeap(yr) then 366 else 365;
        yr := yr + 1;
      }
    }
    for i := 0 to MonthsBefore(m)
      invariant days == DaysBeforeYear(y) + DaysBeforeMonth(y, i + 1)
    {
      days := days + MonthLength(y, i + 1);
    }
    days := days + d - 1;
  }

  method MonthAndDay(y: int, dayOfYear: nat) returns (t: Date)
    requires dayOfYear < YearLength(y)
    ensures t.y == y && IsDate(t) && DaysBeforeMonth(y, t.m) + t.d - 1 == dayOfYear
  {
    var mo, rem := 1, dayOfYear;
    MonthsMakeYear(y);
    while mo <= 12 && rem >= MonthLength(y, mo)
      invariant 1 <= mo <= 13 && 0 <= rem && rem + DaysBeforeMonth(y, mo) == dayOfYear
    {
      rem := rem - MonthLength(y, mo);
      mo := mo + 1;
    }
    t := Date(y, mo, rem + 1);
  }

  method DaysToYmd(days: nat) returns (t: Date)
    ensures t == DateOf(days)
    ensures t.y >= 1970 && IsDate(t) && DayNumber(t) == days
  {
    var y, rem := 1970, days;
    while rem >= YearLength(y)
      invariant y >= 1970 && rem + DaysBeforeYear(y) == days
      invariant rem >= 0
      decreases rem
    {
      rem := rem - YearLength(y);
      y := y + 1;
    }
    t := MonthAndDay(y, rem);
    DateOfIsInverse(days);
    DayNumberInjective(t, DateOf(days));
  }

  // ----- The inverse, as a function -----

  function MonthFrom(y: int, m: int, rem: nat): Date
    decreases 13 - m
  {
    if m > 12 || rem < MonthLength(y, m) then Date(y, m, rem + 1) else MonthFrom(y, m + 1, rem - MonthLength(y, m))
  }

  function YearFrom(y: int, rem: nat): Date
    decreases rem
  {
    if rem < YearLength(y) then MonthFrom(y, 1, rem) else YearFrom(y + 1, rem - YearLength(y))
  }

  function DateOf(days: nat): Date {
    YearFrom(1970, days)
  }

  lemma {:induction false} MonthFromIsInverse(y: int, m: int, rem: nat)
    requires 1 <= m <= 12 && DaysBeforeMonth(y, m) + rem < YearLength(y)
    ensures
      var t := MonthFrom(y, m, rem);
      IsDate(t) && t.y == y && DayNumber(t) == DaysBeforeYear(y) + DaysBeforeMonth(y, m) + rem
    decreases 13 - m
  {
    if rem >= MonthLength(y, m) {
      assert DaysBeforeMonth(y, m + 1) == DaysBeforeMonth(y, m) + MonthLength(y, m);
      if m == 12 { MonthsMakeYear(y); }
      MonthFromIsInverse(y, m + 1, rem - MonthLength(y, m));
    }
  }

  lemma {:induction false} YearFromIsInverse(y: int, rem: nat)
    ensures
      var t := YearFrom(y, rem);
      IsDate(t) && y <= t.y <= y + rem / 365 && DayNumber(t) == DaysBeforeYear(y) + rem
    decreases rem
  {
    if rem < YearLength(y) {
      MonthFromIsInverse(y, 1, rem);
    } else {
      YearFromIsInverse(y + 1, rem - YearLength(y));
    }
  }

  /** Every day number from 0 up is the number of exactly one valid date, and that is the date computed. */
  lemma DateOfIsInverse(days: nat)
    ensures IsDate(DateOf(days)) && DayNumber(DateOf(days)) == days
    ensures 1970 <= DateOf(days).y <= 1970 + days / 365
  {
    YearFromIsInverse(1970, days);
  }

  lemma DateOfDayNumber(t: Date)
    requires IsDate(t) && t.y >= 1970
    ensures DayNumber(t) >= 0 && DateOf(DayNumber(t)) == t
  {
    WithinYear(t);
    if t.y > 1970 {
      YearsIncrease(1970, t.y);
    }
    DateOfIsInverse(DayNumber(t));
    DayNumberInjective(t, DateOf(DayNumber(t)));
  }

  // ----- Date texts -----

  function Zeros(n: int): string
    decreases n
  {
    if n <= 0 then "" else Zeros(n - 1) + "0"
  }

  /** Zero-padded decimal, the sign counting towards the width. */
  function Pad(n: int, width: nat): string {
    if n < 0 then "-" + Zeros(width - 1 - |Digits(-n)|) + Digits(-n) else Zeros(width - |Digits(n)|) + Digits(n)
  }

  function FormatDate(t: Date): string {
    Pad(t.y, 4) + "-" + Pad(t.m, 2) + "-" + Pad(t.d, 2)
  }

  function Word(s: string): string {
    if s == "" || IsSpace(s[0]) then "" else [s[0]] + Word(s[1..])
  }

  /** Position of the first dash, or the length. */
  function DashAt(s: string): (n: nat)
    ensures n <= |s| && (n < |s| ==> s[n] == '-')
  {
    if s == "" || s[0] == '-' then 0 else 1 + DashAt(s[1..])
  }

  /** The first word, cut at its first two dashes, each piece a whole number. */
  function ParseDate(s: string): Option<Date> {
    var w := Word(TrimStart(s));
    var a := DashAt(w);
    if a == |w| then None
    else
      var rest := w[a + 1..];
      var b := DashAt(rest);
      if b == |rest| then None
      else
        var y, m, d := ParseI64(w[..a]), ParseI64(rest[..b]), ParseI64(rest[b + 1..]);
        if y.Some? && m.Some? && d.Some? then Some(Date(y.value, m.value, d.value)) else None
  }

  predicate IsDigits(s: string) {
    forall i :: 0 <= i < |s| ==> '0' <= s[i] <= '9'
  }

  lemma {:induction false} LeadingZeros(n: int, s: string)
    ensures DigitsValue(Zeros(n) + s) == DigitsValue(s)
    ensures IsDigits(Zeros(n))
    decreases |s|, n
  {
    if s != "" {
      LeadingZeros(n, s[..|s| - 1]);
      assert (Zeros(n) + s)[..|Zeros(n) + s| - 1] == Zeros(n) + s[..|s| - 1];
    } else {
      assert Zeros(n) + s == Zeros(n);
      ZerosValue(n);
    }
  }

  lemma {:induction false} ZerosValue(n: int)
    ensures DigitsValue(Zeros(n)) == Some(0) && IsDigits(Zeros(n))
    decreases n
  {
    if n > 0 {
      ZerosValue(n - 1);
      assert Zeros(n)[..|Zeros(n)| - 1] == Zeros(n - 1);
    }
  }

  lemma UnsignedParse(s: string)
    requires s != "" && IsDigits(s) && DigitsValue(s).Some? && DigitsValue(s).value <= I64_MAX
    ensures ParseI64(s) == Some(DigitsValue(s).value)
  {
    assert '0' <= s[0] <= '9';
  }

  lemma PadParses(n: nat, width: nat)
    requires n <= I64_MAX
    ensures ParseI64(Pad(n, width)) == Some(n) && IsDigits(Pad(n, width)) && Pad(n, width) != ""
  {
    LeadingZeros(width - |Digits(n)|, Digits(n));
    DigitsValueOfDigits(n);
    UnsignedParse(Pad(n, width));
  }

  lemma {:induction false} DashAfterDigits(a: string, b: string)
    requires IsDigits(a)
    ensures DashAt(a + "-" + b) == |a|
  {
    if a != "" {
      assert (a + "-" + b)[1..] == a[1..] + "-" + b;
      DashAfterDigits(a[1..], b);
    } else {
      assert a + "-" + b == "-" + b;
    }
  }

  lemma {:induction false} WordOfSolid(s: string)
    requires forall i :: 0 <= i < |s| ==> !IsSpace(s[i])
    ensures Word(s) == s && TrimStart(s) == s
  {
    if s != "" {
      WordOfSolid(s[1..]);
      assert s == [s[0]] + s[1..];
    }
  }

  /** Two runs of digits and one more, joined by dashes, are found again. */
  lemma DashesFound(y: string, m: string, d: string)
    requires IsDigits(y) && IsDigits(m)
    ensures
      var s := y + "-" + (m + "-" + d);
      && DashAt(s) == |y| && s[..|y|] == y && s[|y| + 1..] == m + "-" + d
      && DashAt(m + "-" + d) == |m| && (m + "-" + d)[..|m|] == m && (m + "-" + d)[|m| + 1..] == d
  {
    DashAfterDigits(y, m + "-" + d);
    DashAfterDigits(m, d);
  }

  lemma DigitsAreSolid(y: string, m: string, d: string)
    requires IsDigits(y) && IsDigits(m) && IsDigits(d)
    ensures
      var s := y + "-" + (m + "-" + d);
      Word(TrimStart(s)) == s
  {
    WordOfSolid(y + "-" + (m + "-" + d));
  }

  lemma FormatIsParts(t: Date, y: string, m: string, d: string)
    requires y == Pad(t.y, 4) && m == Pad(t.m, 2) && d == Pad(t.d, 2)
    ensures FormatDate(t) == y + "-" + (m + "-" + d)
  {
  }

  /** A printed date reads back as itself. */
  lemma ParseFormatted(t: Date)
    requires 0 <= t.y <= I64_MAX && 0 <= t.m <= I64_MAX && 0 <= t.d <= I64_MAX
    ensures ParseDate(FormatDate(t)) == Some(t)
  {
    PadParses(t.y, 4);
    PadParses(t.m, 2);
    PadParses(t.d, 2);
    var y, m, d := Pad(t.y, 4), Pad(t.m, 2), Pad(t.d, 2);
    FormatIsParts(t, y, m, d);
    PartsParse(y, m, d);
  }

  lemma PartsParse(y: string, m: string, d: string)
    requires IsDigits(y) && IsDigits(m) && IsDigits(d)
    requires ParseI64(y).Some? && ParseI64(m).Some? && ParseI64(d).Some?
    ensures ParseDate(y + "-" + (m + "-" + d)) == Some(Date(ParseI64(y).value, ParseI64(m).value, ParseI64(d).value))
  {
    DashesFound(y, m, d);
    DigitsAreSolid(y, m, d);
  }

  // ----- Shifting by days -----

  /** The date reached, or before the epoch the reflection the code prints instead. */
  function ShiftedDate(n: int): Date {
    if n >= 0 then DateOf(n)
    else var t := DateOf(-n - 1); Date(1970 - t.y, 13 - t.m, t.d)
  }

  function Shift(t: Date, delta: int): Date {
    ShiftedDate(DayNumber(t) + delta)
  }

  function AddDaysWith(parse: string -> Option<Date>, show: Date -> string, s: string, delta: int): Option<string> {
    if parse(s).None? then None else Some(show(Shift(parse(s).value, delta)))
  }

  function DateAddDays(s: string, delta: int): Option<string> {
    AddDaysWith(ParseDate, FormatDate, s, delta)
  }

  function DateDiff(s: string, t: string): Option<int> {
    DaysBetween(ParseDate(s), ParseDate(t))
  }

  function DaysBetween(a: Option<Date>, b: Option<Date>): Option<int> {
    if a.Some? && b.Some? then Some(DayNumber(a.value) - DayNumber(b.value)) else None
  }

  lemma ShiftTwice(t: Date, a: int, b: int, n: int)
    requires DayNumber(t) + a == n >= 0
    ensures Shift(t, a) == DateOf(n) && Shift(DateOf(n), b) == Shift(t, a + b)
  {
    DateOfIsInverse(n);
  }

  /** For any printing of dates that reads back, two shifts are one. */
  lemma AddDaysWithComposes(parse: string -> Option<Date>, show: Date -> string, s: string, a: int, b: int, n: int)
    requires parse(s).Some? && DayNumber(parse(s).value) + a == n >= 0
    requires parse(show(DateOf(n))) == Some(DateOf(n))
    ensures AddDaysWith(parse, show, s, a) == Some(show(DateOf(n)))
    ensures AddDaysWith(parse, show, show(DateOf(n)), b) == AddDaysWith(parse, show, s, a + b)
  {
    ShiftTwice(parse(s).value, a, b, n);
  }

  lemma ShiftsComposeAt(s: string, a: int, b: int, n: int, u: string)
    requires ParseDate(s).Some? && DayNumber(ParseDate(s).value) + a == n >= 0
    requires u == FormatDate(DateOf(n)) && ParseDate(u) == Some(DateOf(n))
    ensures DateAddDays(s, a) == Some(u) && DateAddDays(u, b) == DateAddDays(s, a + b)
  {
    AddDaysWithComposes(ParseDate, FormatDate, s, a, b, n);
  }

  lemma BetweenIsShift(later: Option<Date>, earlier: Option<Date>, a: int, n: int)
    requires earlier.Some? && DayNumber(earlier.value) + a == n >= 0 && later == Some(DateOf(n))
    ensures DaysBetween(later, earlier) == Some(a)
  {
    DateOfIsInverse(n);
  }

  lemma DiffOf(u: string, s: string, a: int, n: int, later: Option<Date>, earlier: Option<Date>)
    requires later == ParseDate(u) && earlier == ParseDate(s) && earlier.Some?
    requires DayNumber(earlier.value) + a == n >= 0 && later == Some(DateOf(n))
    ensures DateDiff(u, s) == Some(a)
  {
    BetweenIsShift(later, earlier, a, n);
  }

  /** Shifting by a and then by b is shifting by a + b, and DATEDIFF recovers the shift. */
  lemma ShiftsCompose(s: string, a: int, b: int) returns (u: string)
    requires ParseDate(s).Some? && 0 <= DayNumber(ParseDate(s).value) + a <= I64_MAX
    ensures DateAddDays(s, a) == Some(u)
    ensures DateAddDays(u, b) == DateAddDays(s, a + b)
    ensures DateDiff(u, s) == Some(a)
  {
    var n := DayNumber(ParseDate(s).value) + a;
    DateOfIsInverse(n);
    ParseFormatted(DateOf(n));
    u := FormatDate(DateOf(n));
    ShiftsComposeAt(s, a, b, n, u);
    DiffOf(u, s, a, n, ParseDate(u), ParseDate(s));
  }

  lemma YearBounds(y: int)
    ensures 146097 * (y - 1970) - 1200 <= 400 * DaysBeforeYear(y) <= 146097 * (y - 1970) + 1200
  {
    ClosedForm(y);
  }

  lemma ShiftBeforeEpoch(k: nat)
    ensures DayNumber(ShiftedDate(-1 - k)) < -1 - k
  {
    DateOfIsInverse(k);
    ReflectionIsTooEarly(DateOf(k));
  }

  /** The date a shift arrives at has the shifted day number exactly when that is on or after the epoch. */
  lemma ShiftIsRightFromEpoch(n: int)
    ensures DayNumber(ShiftedDate(n)) == n <==> n >= 0
  {
    if n >= 0 {
      DateOfIsInverse(n);
    } else {
      ShiftBeforeEpoch(-n - 1);
    }
  }

  lemma WithinAnyYear(t: Date)
    requires 1 <= t.m <= 12 && t.d <= 31
    ensures DayNumber(t) < DaysBeforeYear(t.y) + 400
  {
    MonthsMakeYear(t.y);
    MonthsIncrease(t.y, t.m, 13);
  }

  /** The reflected date lies far before the day it should be. */
  lemma ReflectionIsTooEarly(t: Date)
    requires IsDate(t)
    ensures DayNumber(Date(1970 - t.y, 13 - t.m, t.d)) < -DayNumber(t) - 1
  {
    var r := Date(1970 - t.y, 13 - t.m, t.d);
    var before, reflected := DaysBeforeYear(t.y), DaysBeforeYear(r.y);
    WithinYear(t);
    WithinAnyYear(r);
    YearBounds(t.y);
    YearBounds(r.y);
    assert 400 * before + 400 * reflected <= 146097 * -1970 + 2400;
  }

  // ----- Shifting by months -----

  /** Division and remainder that truncate towards zero. */
  function TruncDiv(a: int, b: int): int
    requires b > 0
  {
    if a >= 0 then a / b else -(-a / b)
  }

  function TruncMod(a: int, b: int): int
    requires b > 0
  {
    a - b * TruncDiv(a, b)
  }

  function MonthIndex(t: Date): int {
    12 * t.y + t.m - 1
  }

  function ShiftMonths(t: Date, months: int): Date {
    var total := MonthIndex(t) + months;
    var y, m := TruncDiv(total, 12), TruncMod(total, 12) + 1;
    Date(y, m, CutDay(t.d, y, m))
  }

  function AddMonthsWith(parse: string -> Option<Date>, show: Date -> string, s: string, months: int): Option<string> {
    if parse(s).None? then None else Some(show(ShiftMonths(parse(s).value, months)))
  }

  function AddMonths(s: string, months: int): Option<string> {
    AddMonthsWith(ParseDate, FormatDate, s, months)
  }

  function CutDay(d: int, y: int, m: int): (r: int)
    ensures r <= d && (r < d ==> r == MonthLength(y, m))
    ensures d >= 1 ==> 1 <= r <= MonthLength(y, m)
  {
    if d <= MonthLength(y, m) then d else MonthLength(y, m)
  }

  /** The month index moves by exactly the shift; the result is a date exactly when the month count is not a negative
      fraction of years. */
  lemma ShiftMonthsIsExact(t: Date, months: int)
    requires t.d >= 1
    ensures MonthIndex(ShiftMonths(t, months)) == MonthIndex(t) + months
    ensures IsDate(ShiftMonths(t, months)) <==> MonthIndex(t) + months >= 0 || (MonthIndex(t) + months) % 12 == 0
    ensures ShiftMonths(t, months).d <= t.d
    ensures ShiftMonths(t, months).d < t.d ==>
              ShiftMonths(t, months).d == MonthLength(ShiftMonths(t, months).y, ShiftMonths(t, months).m)
  {
  }

  lemma AddMonthsWithComposes(parse: string -> Option<Date>, show: Date -> string, s: string, a: int, b: int, u: Date)
    requires parse(s).Some? && 1 <= parse(s).value.d <= 28 && u == ShiftMonths(parse(s).value, a)
    requires parse(show(u)) == Some(u)
    ensures AddMonthsWith(parse, show, s, a) == Some(show(u))
    ensures AddMonthsWith(parse, show, show(u), b) == AddMonthsWith(parse, show, s, a + b)
  {
    ShiftMonthsIsExact(parse(s).value, a);
  }

  /** Month shifts of days up to the 28th add up. */
  lemma MonthShiftsCompose(s: string, a: int, b: int) returns (u: string)
    requires ParseDate(s).Some? && 1 <= ParseDate(s).value.d <= 28
    requires 0 <= MonthIndex(ParseDate(s).value) + a <= I64_MAX
    ensures AddMonths(s, a) == Some(u)
    ensures AddMonths(u, b) == AddMonths(s, a + b)
  {
    var t := ShiftMonths(ParseDate(s).value, a);
    ShiftMonthsIsExact(ParseDate(s).value, a);
    ParseFormatted(t);
    u := FormatDate(t);
    AddMonthsWithComposes(ParseDate, FormatDate, s, a, b, t);
  }
}
