/**
 * Calendar arithmetic of src/publication.ts:5-45 over the proleptic Gregorian days of ECMA-262,
 * section 21.4.1, with the text forms that `toISOString` (section 21.4.4.36) gives.
 */
module Calendar {
  import opened Common
  import opened Sets
  import opened TextOrder

  // ------------------------------------------------ days, years and months

  predicate Leap(y: int) { y % 4 == 0 && (y % 100 != 0 || y % 400 == 0) }

  function YearLength(y: int): int { if Leap(y) then 366 else 365 }

  /** The number of the first day of year `y`, 1970-01-01 being day 0. */
  function DayFromYear(y: int): int
    decreases if y >= 1970 then y - 1970 else 1970 - y
  {
    if y == 1970 then 0
    else if y > 1970 then DayFromYear(y - 1) + YearLength(y - 1)
    else DayFromYear(y + 1) - YearLength(y)
  }

  /** Months are counted from 0. */
  function MonthLength(y: int, m: int): int {
    if m == 1 then (if Leap(y) then 29 else 28) else if m == 3 || m == 5 || m == 8 || m == 10 then 30 else 31
  }

  /** Days of the year before month `m`. */
  function MonthStart(y: int, m: int): int
    requires 0 <= m <= 12
  {
    if m == 0 then 0 else MonthStart(y, m - 1) + MonthLength(y, m - 1)
  }

  /** MakeDay of ECMA-262: months overflow into years, days into months. */
  function MakeDay(y: int, m: int, d: int): int {
    DayFromYear(y + m / 12) + MonthStart(y + m / 12, m % 12) + d - 1
  }

  /** MakeFullYear of ECMA-262: two-digit years are taken to be of the twentieth century. */
  function MakeFullYear(y: int): int { if 0 <= y <= 99 then 1900 + y else y }

  lemma NextYear(y: int)
    ensures DayFromYear(y + 1) == DayFromYear(y) + YearLength(y)
  {
  }

  /** The closed form in which ECMA-262 states DayFromYear. */
  function EcmaDayFromYear(y: int): int {
    365 * (y - 1970) + (y - 1969) / 4 - (y - 1901) / 100 + (y - 1601) / 400
  }

  lemma QuarterStep(y: int)
    ensures (y + 1 - 1969) / 4 == (y - 1969) / 4 + if y % 4 == 0 then 1 else 0
  {
  }

  lemma CenturyStep(y: int)
    ensures (y + 1 - 1901) / 100 == (y - 1901) / 100 + if y % 100 == 0 then 1 else 0
  {
  }

  lemma FourCenturyStep(y: int)
    ensures (y + 1 - 1601) / 400 == (y - 1601) / 400 + if y % 400 == 0 then 1 else 0
  {
  }

  lemma HundredDivides(q: int)
    ensures 100 * q % 100 == 0
  {
  }

  lemma FourDivides(q: int)
    ensures 4 * q % 4 == 0
  {
  }

  lemma Divisible(y: int)
    ensures y % 400 == 0 ==> y % 100 == 0
    ensures y % 100 == 0 ==> y % 4 == 0
  {
    var q, r := y / 400, y / 100;
    HundredDivides(4 * q);
    FourDivides(25 * r);
    assert y % 400 == 0 ==> y == 100 * (4 * q);
    assert y % 100 == 0 ==> y == 4 * (25 * r);
  }

  lemma EcmaNextYear(y: int)
    ensures EcmaDayFromYear(y + 1) == EcmaDayFromYear(y) + YearLength(y)
  {
    QuarterStep(y);
    CenturyStep(y);
    FourCenturyStep(y);
    Divisible(y);
    LeapDays(y, (y - 1969) / 4, (y - 1901) / 100, (y - 1601) / 400);
  }

  lemma LeapDays(y: int, a: int, b: int, c: int)
    requires y % 400 == 0 ==> y % 100 == 0
    requires y % 100 == 0 ==> y % 4 == 0
    ensures (a + if y % 4 == 0 then 1 else 0) - (b + if y % 100 == 0 then 1 else 0)
      + (c + if y % 400 == 0 then 1 else 0)
      == a - b + c + YearLength(y) - 365
  {
  }

  lemma {:induction false} DayFromYearIsEcma(y: int)
    ensures DayFromYear(y) == EcmaDayFromYear(y)
    decreases if y >= 1970 then y - 1970 else 1970 - y
  {
    if y > 1970 {
      DayFromYearIsEcma(y - 1);
      EcmaNextYear(y - 1);
    } else if y < 1970 {
      DayFromYearIsEcma(y + 1);
      EcmaNextYear(y);
    }
  }

  lemma {:induction false} YearsGrow(y: int, z: int)
    requires y <= z
    ensures DayFromYear(y) + 365 * (z - y) <= DayFromYear(z) <= DayFromYear(y) + 366 * (z - y)
    decreases z - y
  {
    if y < z {
      YearsGrow(y, z - 1);
      NextYear(z - 1);
    }
  }

  /** The year of a day, looked for from a year that is not too late. */
  function YearFrom(day: int, y: int): (r: int)
    requires DayFromYear(y) <= day
    ensures DayFromYear(r) <= day < DayFromYear(r + 1)
    decreases day - DayFromYear(y)
  {
    NextYear(y);
    if day < DayFromYear(y + 1) then y else YearFrom(day, y + 1)
  }

  lemma SearchStart(day: int)
    ensures day < 0 ==> DayFromYear(1970 + day / 365) <= day
  {
    if day < 0 {
      YearsGrow(1970 + day / 365, 1970);
    }
  }

  function YearOf(day: int): (y: int)
    ensures DayFromYear(y) <= day < DayFromYear(y + 1)
  {
    SearchStart(day);
    YearFrom(day, if day >= 0 then 1970 else 1970 + day / 365)
  }

  lemma YearOfIs(day: int, y: int)
    requires DayFromYear(y) <= day < DayFromYear(y + 1)
    ensures YearOf(day) == y
  {
    var r := YearOf(day);
    if r < y {
      YearsGrow(r + 1, y);
    } else if y < r {
      YearsGrow(y + 1, r);
    }
  }

  datatype Civil = Civil(year: int, month: int, day: int)

  predicate ValidCivil(c: Civil) {
    1 <= c.month <= 12 && 1 <= c.day <= MonthLength(c.year, c.month - 1)
  }

  /** The days before each month as ECMA-262 tabulates them; a leap day comes in after February. */
  lemma MonthStartIsEcma(y: int, m: int)
    requires 0 <= m <= 12
    ensures MonthStart(y, m) == [0, 31, 59, 90, 120, 151, 181, 212, 243, 273, 304, 334, 365][m]
      + if m >= 2 && y % 4 == 0 && (y % 100 != 0 || y % 400 == 0) then 1 else 0
  {
  }

  lemma MonthsFillTheYear(y: int)
    ensures MonthStart(y, 12) == YearLength(y)
  {
    MonthStartIsEcma(y, 12);
  }

  lemma {:induction false} MonthsGrow(y: int, m: int, n: int)
    requires 0 <= m <= n <= 12
    ensures MonthStart(y, m) <= MonthStart(y, n)
    decreases n
  {
    if m < n {
      MonthsGrow(y, m, n - 1);
    }
  }

  /** The month, counted from 0, in which the `n`-th day of the year falls; months before `m` are over by then. */
  function MonthFrom(y: int, n: int, m: int): (r: int)
    requires 0 <= m < 12 && MonthStart(y, m) <= n < MonthStart(y, 12)
    ensures 0 <= r < 12 && MonthStart(y, r) <= n < MonthStart(y, r + 1)
    decreases 12 - m
  {
    if n < MonthStart(y, m + 1) then m else MonthFrom(y, n, m + 1)
  }

  function MonthOf(y: int, n: int): (m: int)
    requires 0 <= n < YearLength(y)
    ensures 0 <= m < 12 && MonthStart(y, m) <= n < MonthStart(y, m + 1)
  {
    MonthsFillTheYear(y);
    MonthFrom(y, n, 0)
  }

  /** What `getUTCFullYear`, `getUTCMonth` and `getUTCDate` give, with the month counted from 1. */
  function FromDay(day: int): (c: Civil)
    ensures ValidCivil(c)
  {
    var y := YearOf(day);
    NextYear(y);
    var n := day - DayFromYear(y);
    var m := MonthOf(y, n);
    Civil(y, m + 1, n - MonthStart(y, m) + 1)
  }

  function ToDay(c: Civil): int { MakeDay(c.year, c.month - 1, c.day) }

  lemma WithinYear(c: Civil)
    requires ValidCivil(c)
    ensures DayFromYear(c.year) + MonthStart(c.year, c.month - 1) <= ToDay(c)
    ensures ToDay(c) < DayFromYear(c.year) + MonthStart(c.year, c.month)
    ensures DayFromYear(c.year) <= ToDay(c) < DayFromYear(c.year + 1)
  {
    PlainDay(c);
    MonthsGrow(c.year, 0, c.month - 1);
    MonthsGrow(c.year, c.month, 12);
    MonthsFillTheYear(c.year);
    NextYear(c.year);
    assert MonthStart(c.year, c.month) == MonthStart(c.year, c.month - 1) + MonthLength(c.year, c.month - 1);
  }

  lemma PlainDay(c: Civil)
    requires 1 <= c.month <= 12
    ensures ToDay(c) == DayFromYear(c.year) + MonthStart(c.year, c.month - 1) + c.day - 1
  {
  }

  lemma DayRoundTrip(day: int)
    ensures ToDay(FromDay(day)) == day
  {
    PlainDay(FromDay(day));
  }

  /** With `DayRoundTrip`: days and valid dates correspond one to one. */
  lemma CivilRoundTrip(c: Civil)
    requires ValidCivil(c)
    ensures FromDay(ToDay(c)) == c
  {
    hide YearOf, MonthOf, DayFromYear, MonthStart, ToDay;
    var d := ToDay(c);
    WithinYear(c);
    PlainDay(c);
    YearOfIs(d, c.year);
    NextYear(c.year);
    MonthIs(c.year, d - DayFromYear(c.year), c.month - 1);
  }

  lemma MonthIs(y: int, n: int, m: int)
    requires 0 <= n < YearLength(y) && 0 <= m < 12 && MonthStart(y, m) <= n < MonthStart(y, m + 1)
    ensures MonthOf(y, n) == m
  {
    var r := MonthOf(y, n);
    if r < m {
      MonthsGrow(y, r + 1, m);
    } else if m < r {
      MonthsGrow(y, m + 1, r);
    }
  }

  predicate CivilBefore(a: Civil, b: Civil) {
    a.year < b.year || (a.year == b.year && (a.month < b.month || (a.month == b.month && a.day < b.day)))
  }

  lemma EarlierCivilIsEarlierDay(a: Civil, b: Civil)
    requires ValidCivil(a) && ValidCivil(b) && CivilBefore(a, b)
    ensures ToDay(a) < ToDay(b)
  {
    WithinYear(a);
    WithinYear(b);
    PlainDay(a);
    PlainDay(b);
    if a.year < b.year {
      YearsGrow(a.year + 1, b.year);
    } else if a.month < b.month {
      MonthsGrow(a.year, a.month, b.month - 1);
    }
  }

  // ---------------------------------------------------------------- text

  predicate IsDigit(c: char) { '0' <= c <= '9' }

  predicate AllDigits(s: string) { forall i :: 0 <= i < |s| ==> IsDigit(s[i]) }

  /** `Number` on a text of digits. */
  function Value(s: string): int {
    if s == "" then 0 else 10 * Value(s[..|s| - 1]) + (s[|s| - 1] as int - '0' as int)
  }

  /** The last `width` decimal digits of `n`. */
  function Digits(n: nat, width: nat): (s: string)
    ensures |s| == width && AllDigits(s)
    decreases width
  {
    if width == 0 then "" else Digits(n / 10, width - 1) + [('0' as int + n % 10) as char]
  }

  predicate Fits(n: int, width: nat)
    decreases width
  {
    if width == 0 then n == 0 else n >= 0 && Fits(n / 10, width - 1)
  }

  lemma FitsFour(n: int)
    ensures Fits(n, 4) <==> 0 <= n <= 9999
    ensures Fits(n, 2) <==> 0 <= n <= 99
  {
    assert n >= 0 ==> n / 10 / 10 == n / 100 && n / 100 / 10 == n / 1000 && n / 1000 / 10 == n / 10000;
    assert Fits(n / 100, 2) <==> 0 <= n <= 9999 by {
      assert Fits(n / 1000, 1) <==> n / 1000 >= 0 && n / 10000 == 0;
    }
    assert Fits(n / 10, 1) <==> n / 10 >= 0 && n / 100 == 0;
  }

  lemma {:induction false} DigitsValue(n: int, width: nat)
    requires Fits(n, width)
    ensures n >= 0 && Value(Digits(n, width)) == n
    decreases width
  {
    if width > 0 {
      DigitsValue(n / 10, width - 1);
      var s := Digits(n, width);
      assert s[..width - 1] == Digits(n / 10, width - 1);
    }
  }

  lemma {:induction false} ValueDigits(s: string)
    requires AllDigits(s)
    ensures Value(s) >= 0 && Fits(Value(s), |s|) && Digits(Value(s), |s|) == s
  {
    if s != "" {
      var rest, d := s[..|s| - 1], s[|s| - 1] as int - '0' as int;
      ValueDigits(rest);
      assert Value(s) / 10 == Value(rest) && Value(s) % 10 == d;
      assert s == rest + [s[|s| - 1]];
    }
  }

  /** The pattern of four, two and two digits. */
  predicate Shape(s: string) {
    |s| == 10 && s[4] == '-' && s[7] == '-' && AllDigits(s[..4]) && AllDigits(s[5..7]) && AllDigits(s[8..])
  }

  /** The three numbers of a text of that shape. */
  function Parts(s: string): Civil
    requires Shape(s)
  {
    Civil(Value(s[..4]), Value(s[5..7]), Value(s[8..]))
  }

  predicate ShortCivil(c: Civil) { 0 <= c.year <= 9999 && 0 <= c.month <= 99 && 0 <= c.day <= 99 }

  /** The first ten characters of `toISOString`; years outside 0..9999 are written with a sign and six digits. */
  function IsoText(c: Civil): string
    requires 0 <= c.month && 0 <= c.day
  {
    if 0 <= c.year <= 9999 then Digits(c.year, 4) + "-" + Digits(c.month, 2) + "-" + Digits(c.day, 2)
    else if c.year < 0 then "-" + Digits(-c.year, 6) + "-" + Digits(c.month, 2)
    else "+" + Digits(c.year, 6) + "-" + Digits(c.month, 2)
  }

  /** Short numbers are read back from their text. */
  lemma PartsOfText(c: Civil)
    requires ShortCivil(c)
    ensures Shape(IsoText(c)) && Parts(IsoText(c)) == c
  {
    var s := IsoText(c);
    assert s[..4] == Digits(c.year, 4) && s[5..7] == Digits(c.month, 2) && s[8..] == Digits(c.day, 2);
    FitsFour(c.year);
    FitsFour(c.month);
    FitsFour(c.day);
    DigitsValue(c.year, 4);
    DigitsValue(c.month, 2);
    DigitsValue(c.day, 2);
  }

  /** A text of the right shape is the text of its numbers. */
  lemma TextOfParts(s: string)
    requires Shape(s)
    ensures ShortCivil(Parts(s)) && IsoText(Parts(s)) == s
  {
    ValueDigits(s[..4]);
    ValueDigits(s[5..7]);
    ValueDigits(s[8..]);
    FitsFour(Value(s[..4]));
    FitsFour(Value(s[5..7]));
    FitsFour(Value(s[8..]));
    assert s == s[..4] + "-" + s[5..7] + "-" + s[8..];
  }

  // -------------------------------------------------------- the operations

  datatype CalendarError = Malformed | NoSuchDate | OutOfRange | NothingFree

  /** `assertIsoDate`: the pattern, then a round trip through `Date.UTC`. */
  function AssertIsoDate(s: string): Result<(), CalendarError> {
    if !Shape(s) then Err(Malformed)
    else
      var p := Parts(s);
      if FromDay(MakeDay(MakeFullYear(p.year), p.month - 1, p.day)) != p then Err(NoSuchDate) else Ok(())
  }

  predicate Accepted(s: string) { AssertIsoDate(s).Ok? }

  /** A date that the calendar operations accept: a real date of a year from 100 on. */
  predicate IsDate(s: string) {
    Shape(s) && ValidCivil(Parts(s)) && Parts(s).year >= 100
  }

  /** The check accepts exactly the real dates of the years 0100 to 9999. */
  lemma AcceptsExactlyTheDates(s: string)
    ensures Accepted(s) <==> IsDate(s)
  {
    hide YearOf, FromDay, DayFromYear, Leap;
    if Shape(s) {
      var p := Parts(s);
      TextOfParts(s);
      if IsDate(s) {
        CivilRoundTrip(p);
      } else if 0 <= p.year <= 99 {
        TwentiethCentury(p);
      }
    }
  }

  /** Ten characters: digits, with a dash at the fifth and the eighth. */
  predicate FourTwoTwo(s: string) {
    |s| == 10 && forall i :: 0 <= i < 10 ==> if i == 4 || i == 7 then s[i] == '-' else '0' <= s[i] <= '9'
  }

  lemma DigitsWithin(s: string, lo: nat, hi: nat)
    requires lo <= hi <= |s|
    ensures AllDigits(s[lo..hi]) <==> forall i :: lo <= i < hi ==> IsDigit(s[i])
  {
    assert forall i :: lo <= i < hi ==> s[lo..hi][i - lo] == s[i];
  }

  lemma ShapeIs(s: string)
    ensures Shape(s) <==> FourTwoTwo(s)
  {
    if |s| == 10 {
      DigitsWithin(s, 0, 4);
      DigitsWithin(s, 5, 7);
      DigitsWithin(s, 8, 10);
      assert s[0..4] == s[..4] && s[8..10] == s[8..];
      hide AllDigits;
    }
  }

  /** Which error: a text of another form, or a form that names no date of the calendar. */
  lemma DateErrors(s: string)
    ensures AssertIsoDate(s) == Err(Malformed) <==> !FourTwoTwo(s)
    ensures AssertIsoDate(s) == Err(NoSuchDate) <==> FourTwoTwo(s) && !IsDate(s)
  {
    ShapeIs(s);
    AcceptsExactlyTheDates(s);
    hide FromDay, Shape, FourTwoTwo, IsDate, MakeDay;
  }

  /** The text of a day of a year that four digits do not hold: a sign, six digits, and the month. */
  lemma FarYearText(c: Civil)
    requires 1 <= c.month <= 12 && 1 <= c.day <= 31 && (-1000000 < c.year < 0 || 10000 <= c.year < 1000000)
    ensures var s := IsoText(c);
      && |s| == 10 && s[0] == (if c.year < 0 then '-' else '+')
      && Value(s[1..7]) == (if c.year < 0 then -c.year else c.year) && s[7] == '-' && Value(s[8..]) == c.month
  {
    hide Fits, Digits, Value;
    var y := if c.year < 0 then -c.year else c.year;
    FitsFour(c.month);
    FitsSix(y);
    DigitsValue(y, 6);
    DigitsValue(c.month, 2);
    SignedPieces(if c.year < 0 then "-" else "+", Digits(y, 6), Digits(c.month, 2));
  }

  lemma SignedPieces(sign: string, year: string, month: string)
    requires |sign| == 1 && |year| == 6 && |month| == 2
    ensures var s := sign + year + "-" + month;
      |s| == 10 && s[0] == sign[0] && s[1..7] == year && s[7] == '-' && s[8..] == month
  {
  }

  lemma FitsSix(n: int)
    requires 0 <= n < 1000000
    ensures Fits(n, 6)
  {
    FitsFour(n / 100);
    assert n / 10 / 10 == n / 100;
    assert Fits(n / 10, 5) == Fits(n / 100, 4);
  }

  lemma January(y: int)
    ensures MonthStart(y, 0) == 0 && MonthStart(y, 1) == 31
  {
  }

  /** A year below 100 is moved to the twentieth century or, with a month or day out of range, a few years from it. */
  lemma TwentiethCentury(p: Civil)
    requires 0 <= p.year <= 99 && 0 <= p.month <= 99 && 0 <= p.day <= 99
    ensures FromDay(MakeDay(MakeFullYear(p.year), p.month - 1, p.day)).year >= 1899
  {
    hide MonthOf, DayFromYear, YearOf, MonthStart;
    var y, m := 1900 + p.year + (p.month - 1) / 12, (p.month - 1) % 12;
    var day := MakeDay(1900 + p.year, p.month - 1, p.day);
    assert day == DayFromYear(y) + MonthStart(y, m) + p.day - 1;
    if p.month == 0 {
      MonthsGrow(y, 1, m);
      January(y);
    } else {
      MonthsGrow(y, 0, m);
      January(y);
    }
    YearsGrow(1899, y);
    if YearOf(day) < 1899 {
      YearsGrow(YearOf(day) + 1, 1899);
    }
  }

  /** The day of a date; other texts have none, and 0 stands in. */
  function DayOf(s: string): int { if Shape(s) then ToDay(Parts(s)) else 0 }

  /** Largest time value of ECMA-262, section 21.4.1.1, in days. */
  const MAX_DAY: int := 100000000

  /** `addPacificDays`. */
  function AddPacificDays(date: string, days: int): Result<string, CalendarError> {
    match AssertIsoDate(date)
    case Err(e) => Err(e)
    case Ok(_) =>
      var p := Parts(date);
      var day := MakeDay(MakeFullYear(p.year), p.month - 1, p.day + days);
      if day < -MAX_DAY || day > MAX_DAY then Err(OutOfRange) else Ok(IsoText(FromDay(day)))
  }

  /** First and last day that the operations can take as a date: 0100-01-01 and 9999-12-31. */
  const FIRST_DAY: int := -683003
  const LAST_DAY: int := 2932896

  lemma DateDays(day: int)
    ensures DayFromYear(100) == FIRST_DAY && DayFromYear(10000) == LAST_DAY + 1
    ensures FIRST_DAY <= day <= LAST_DAY <==> 100 <= FromDay(day).year <= 9999
  {
    DayFromYearIsEcma(100);
    DayFromYearIsEcma(10000);
    hide DayFromYear, YearOf, MonthOf, MonthStart;
    ReachesYear(day, 100);
    ReachesYear(day, 10000);
  }

  lemma ReachesYear(day: int, y: int)
    ensures DayFromYear(y) <= day <==> y <= YearOf(day)
  {
    var r := YearOf(day);
    hide DayFromYear, YearOf;
    if r < y { YearsGrow(r + 1, y); } else { YearsGrow(y, r); }
  }

  /** The text of a day; it is a date exactly when the day is in the range. */
  function DayText(day: int): string { IsoText(FromDay(day)) }

  lemma DayTextIsDate(day: int)
    ensures IsDate(DayText(day)) <==> FIRST_DAY <= day <= LAST_DAY
    ensures IsDate(DayText(day)) ==> DayOf(DayText(day)) == day
  {
    var c := FromDay(day);
    DateDays(day);
    if 0 <= c.year <= 9999 {
      PartsOfText(c);
      DayRoundTrip(day);
    } else {
    }
  }

  lemma DateText(s: string)
    requires IsDate(s)
    ensures FIRST_DAY <= DayOf(s) <= LAST_DAY && DayText(DayOf(s)) == s
  {
    TextOfParts(s);
    CivilRoundTrip(Parts(s));
    DateDays(DayOf(s));
  }

  /** Adding days moves a date by that many days, or leaves the range of dates or of times. */
  lemma AddPacificDaysMoves(date: string, days: int)
    requires IsDate(date)
    ensures var day := DayOf(date) + days;
      AddPacificDays(date, days) == if -100000000 <= day <= 100000000 then Ok(DayText(day)) else Err(OutOfRange)
  {
    hide FromDay, IsoText, DayFromYear, MonthStart;
    AcceptsExactlyTheDates(date);
  }

  /** The result can be used as a date again. */
  predicate Lands(date: string, days: int) {
    AddPacificDays(date, days).Ok? && IsDate(AddPacificDays(date, days).value)
  }

  lemma LandsExactly(date: string, days: int)
    requires IsDate(date)
    ensures Lands(date, days) <==> FIRST_DAY <= DayOf(date) + days <= LAST_DAY
    ensures Lands(date, days) ==> DayOf(AddPacificDays(date, days).value) == DayOf(date) + days
  {
    hide FromDay, IsoText, ToDay, AddPacificDays;
    AddPacificDaysMoves(date, days);
    DayTextIsDate(DayOf(date) + days);
  }

  /** Adding m days and then n is adding m + n; a step back undoes a step forward; nothing added changes nothing. */
  lemma AddingComposes(date: string, m: int, n: int)
    requires IsDate(date) && Lands(date, m)
    ensures AddPacificDays(AddPacificDays(date, m).value, n) == AddPacificDays(date, m + n)
    ensures AddPacificDays(AddPacificDays(date, m).value, -m) == Ok(date)
    ensures AddPacificDays(date, 0) == Ok(date)
  {
    hide FromDay, IsoText, ToDay, IsDate, AddPacificDays;
    var mid := AddPacificDays(date, m).value;
    LandsExactly(date, m);
    AddPacificDaysMoves(date, m + n);
    AddPacificDaysMoves(mid, n);
    AddPacificDaysMoves(mid, -m);
    AddPacificDaysMoves(date, 0);
    DateText(date);
  }

  // ---------------------------------------------------------- text order

  /** Among texts of digits of one length, the first difference decides the value. */
  lemma {:induction false} ValueAt(a: string, b: string, k: nat)
    requires AllDigits(a) && AllDigits(b) && k < |a| == |b| && a[..k] == b[..k] && a[k] < b[k]
    ensures Value(a) < Value(b)
  {
    var n := |a| - 1;
    if k < n {
      assert a[..n][..k] == a[..k] && b[..n][..k] == b[..k];
      ValueAt(a[..n], b[..n], k);
    }
  }

  lemma ValueOrder(s: string, t: string, a: string, b: string, lo: nat, hi: nat, k: nat)
    requires lo <= k < hi <= |s| == |t| && a == s[lo..hi] && b == t[lo..hi]
    requires AllDigits(a) && AllDigits(b) && s[..k] == t[..k] && s[k] < t[k]
    ensures Value(a) < Value(b)
  {
    assert a[..k - lo] == s[..k][lo..] && b[..k - lo] == t[..k][lo..];
    ValueAt(a, b, k - lo);
  }

  lemma LaterIsLess(a: string, b: string, k: nat)
    requires Shape(a) && Shape(b) && k < 10 && a[..k] == b[..k] && a[k] < b[k]
    ensures CivilBefore(Parts(a), Parts(b))
  {
    if k < 4 {
      ValueOrder(a, b, a[..4], b[..4], 0, 4, k);
    } else {
      assert a[..4] == a[..k][..4] && b[..4] == b[..k][..4];
      if 5 <= k < 7 {
        ValueOrder(a, b, a[5..7], b[5..7], 5, 7, k);
      } else {
        assert k >= 8;
        assert a[5..7] == a[..k][5..7] && b[5..7] == b[..k][5..7];
        ValueOrder(a, b, a[8..], b[8..], 8, 10, k);
      }
    }
  }

  /** String order on dates is day order. */
  lemma TextOrderIsDayOrder(a: string, b: string)
    requires IsDate(a) && IsDate(b)
    ensures LexLess(a, b) <==> DayOf(a) < DayOf(b)
    ensures a == b <==> DayOf(a) == DayOf(b)
  {
    DateText(a);
    DateText(b);
    if a != b {
      FirstDifference(a, b, 0);
      var k: nat :| DifferFirstAt(a, b, k);
      LexAt(a, b, 0, k);
      if a[k] < b[k] {
        LaterIsLess(a, b, k);
        EarlierCivilIsEarlierDay(Parts(a), Parts(b));
      } else {
        LaterIsLess(b, a, k);
        EarlierCivilIsEarlierDay(Parts(b), Parts(a));
      }
    } else {
      LexIrreflexive(a, 0);
    }
  }

  // ---------------------------------------------------- first free date

  const HORIZON: int := 3660

  function Candidate(start: string, k: nat): string
  {
    DayText(DayOf(start) + k)
  }

  /** The candidates tried, in order; they stay within the range of times. */
  lemma CandidateIs(start: string, k: nat)
    requires IsDate(start) && k <= HORIZON
    ensures AddPacificDays(start, k) == Ok(Candidate(start, k))
  {
    AddPacificDaysMoves(start, k);
    DateText(start);
  }

  predicate Taken(start: string, occupied: set<string>, k: nat)
  {
    Candidate(start, k) in occupied
  }

  /** The candidate `k` days on is free and all earlier ones are taken. */
  predicate FirstFree(start: string, occupied: set<string>, k: nat)
  {
    !Taken(start, occupied, k) && forall j: nat :: j < k ==> Taken(start, occupied, j)
  }

  /** The search from the `k`-th candidate on. */
  function SearchFrom(start: string, occupied: set<string>, k: nat): (r: Result<string, CalendarError>)
    decreases HORIZON + 1 - k
  {
    if k > HORIZON then Err(NothingFree)
    else if Taken(start, occupied, k) then SearchFrom(start, occupied, k + 1)
    else Ok(Candidate(start, k))
  }

  function NextAvailable(start: string, occupied: set<string>): Result<string, CalendarError> {
    var check := AssertIsoDate(start);
    if check.Err? then Err(check.error) else SearchFrom(start, occupied, 0)
  }

  method NextAvailablePacificDate(startDate: string, occupiedDates: set<string>)
    returns (r: Result<string, CalendarError>)
    ensures r == NextAvailable(startDate, occupiedDates)
  {
    hide FromDay, IsoText, ToDay, AddPacificDays, IsDate;
    AcceptsExactlyTheDates(startDate);
    var check := AssertIsoDate(startDate);
    if check.Err? {
      return Err(check.error);
    }
    var offset := 0;
    while offset <= 3660
      invariant 0 <= offset <= 3661
      invariant NextAvailable(startDate, occupiedDates) == SearchFrom(startDate, occupiedDates, offset)
    {
      CandidateIs(startDate, offset);
      var candidate := AddPacificDays(startDate, offset);
      if candidate.value !in occupiedDates {
        return candidate;
      }
      offset := offset + 1;
    }
    return Err(NothingFree);
  }

  lemma {:induction false} SearchMeaning(start: string, occupied: set<string>, k: nat)
    requires k <= HORIZON + 1
    requires forall j: nat :: j < k ==> Taken(start, occupied, j)
    ensures var r := SearchFrom(start, occupied, k);
      && (r.Ok? <==> exists j: nat :: j <= HORIZON && !Taken(start, occupied, j))
      && (r.Ok? ==> exists j: nat :: j <= HORIZON && FirstFree(start, occupied, j) && r.value == Candidate(start, j))
      && (r.Err? ==> r.error == NothingFree)
    decreases HORIZON + 1 - k
  {
    hide FromDay, IsoText, ToDay;
    if k <= HORIZON {
      if Taken(start, occupied, k) {
        SearchMeaning(start, occupied, k + 1);
      } else {
        assert FirstFree(start, occupied, k);
      }
    }
  }

  /** The least free date: not before the start, free, and every date in between is taken. */
  lemma NextAvailableIsTheLeastFreeDate(start: string, occupied: set<string>, s: string)
    requires IsDate(start) && NextAvailable(start, occupied).Ok?
    ensures var r := NextAvailable(start, occupied).value;
      && r !in occupied
      && (IsDate(r) ==> !LexLess(r, start))
      && (IsDate(r) && IsDate(s) && !LexLess(s, start) && LexLess(s, r) ==> s in occupied)
  {
    hide FromDay, IsoText, ToDay, LexFrom;
    AcceptsExactlyTheDates(start);
    SearchMeaning(start, occupied, 0);
    var r := NextAvailable(start, occupied).value;
    var j: nat :| j <= HORIZON && FirstFree(start, occupied, j) && r == Candidate(start, j);
    DayTextIsDate(DayOf(start) + j);
    if IsDate(r) {
      TextOrderIsDayOrder(r, start);
      if IsDate(s) && !LexLess(s, start) && LexLess(s, r) {
        TextOrderIsDayOrder(s, start);
        TextOrderIsDayOrder(s, r);
        DateText(s);
        assert Taken(start, occupied, DayOf(s) - DayOf(start));
      }
    }
  }

  /** A free date within the horizon and within the calendar. */
  predicate FreeDate(start: string, occupied: set<string>, j: nat)
  {
    j <= HORIZON && DayOf(start) + j <= LAST_DAY && !Taken(start, occupied, j)
  }

  /** The answer is a date exactly when some date of the calendar within the horizon is free. */
  lemma NextAvailableIsADateExactly(start: string, occupied: set<string>)
    requires IsDate(start)
    ensures NextAvailable(start, occupied).Ok? && IsDate(NextAvailable(start, occupied).value) <==>
      exists j: nat :: FreeDate(start, occupied, j)
  {
    hide FromDay, IsoText, ToDay;
    AcceptsExactlyTheDates(start);
    SearchMeaning(start, occupied, 0);
    DateText(start);
    if NextAvailable(start, occupied).Ok? {
      var r := NextAvailable(start, occupied).value;
      var k: nat :| k <= HORIZON && FirstFree(start, occupied, k) && r == Candidate(start, k);
      DayTextIsDate(DayOf(start) + k);
      if IsDate(r) {
        assert FreeDate(start, occupied, k);
      }
    }
  }

  /** The first `n` candidates, all different as long as they are dates. */
  function Candidates(start: string, n: nat): set<string>
  {
    set k: nat | k < n :: Candidate(start, k)
  }

  lemma {:induction false} CandidatesDiffer(start: string, n: nat)
    requires IsDate(start) && DayOf(start) + n <= LAST_DAY + 1
    ensures |Candidates(start, n)| == n
  {
    hide FromDay, IsoText, ToDay;
    DateText(start);
    if n > 0 {
      CandidatesDiffer(start, n - 1);
      var last := Candidate(start, n - 1);
      forall k: nat | k < n - 1 ensures Candidate(start, k) != last {
        DayTextIsDate(DayOf(start) + k);
        DayTextIsDate(DayOf(start) + n - 1);
      }
      assert Candidates(start, n) == Candidates(start, n - 1) + {last};
    } else {
      assert Candidates(start, n) == {};
    }
  }

  /** With at most 3660 occupied dates the search always succeeds. */
  lemma NextAvailableAlwaysFinds(start: string, occupied: set<string>)
    requires IsDate(start) && |occupied| <= 3660 && forall s :: s in occupied ==> IsDate(s)
    ensures NextAvailable(start, occupied).Ok?
  {
    hide FromDay, IsoText, ToDay;
    AcceptsExactlyTheDates(start);
    SearchMeaning(start, occupied, 0);
    DateText(start);
    if DayOf(start) + HORIZON <= LAST_DAY {
      CandidatesDiffer(start, HORIZON + 1);
      if forall j: nat :: j <= HORIZON ==> Taken(start, occupied, j) {
        forall s | s in Candidates(start, HORIZON + 1) ensures s in occupied {
          var k: nat :| k < HORIZON + 1 && s == Candidate(start, k);
          assert Taken(start, occupied, k);
        }
        SubsetSize(Candidates(start, HORIZON + 1), occupied);
      }
    } else {
      var k := LAST_DAY + 1 - DayOf(start);
      DayTextIsDate(LAST_DAY + 1);
      assert !Taken(start, occupied, k);
    }
  }

  lemma LastDays()
    ensures ValidCivil(Civil(9999, 12, 31)) && ToDay(Civil(9999, 12, 31)) == LAST_DAY
    ensures ValidCivil(Civil(10000, 1, 1)) && ToDay(Civil(10000, 1, 1)) == LAST_DAY + 1
  {
    PlainDay(Civil(9999, 12, 31));
    PlainDay(Civil(10000, 1, 1));
    DateDays(0);
    January(10000);
    MonthsFillTheYear(9999);
    NextYear(9999);
    hide DayFromYear;
  }

  lemma LastDayText()
    ensures IsoText(Civil(9999, 12, 31)) == "9999-12-31"
  {
    assert Digits(9999, 4) == "9999" by {
      assert Digits(99, 2) == "99";
    }
    assert Digits(12, 2) == "12" && Digits(31, 2) == "31";
  }

  lemma OverText()
    ensures IsoText(Civil(10000, 1, 1)) == "+010000-01"
  {
    assert Digits(10000, 6) == "010000" by {
      assert Digits(1, 2) == "01";
      assert Digits(100, 4) == "0100";
    }
    assert Digits(1, 2) == "01";
  }

  lemma PastTheEnd(last: string)
    requires last == IsoText(Civil(9999, 12, 31))
    ensures NextAvailable(last, {last}) == Ok(IsoText(Civil(10000, 1, 1))) && !IsDate(IsoText(Civil(10000, 1, 1)))
  {
    hide ToDay, IsoText, FromDay, MonthLength;
    LastDays();
    PartsOfText(Civil(9999, 12, 31));
    CivilRoundTrip(Civil(9999, 12, 31));
    CivilRoundTrip(Civil(10000, 1, 1));
    DayTextIsDate(LAST_DAY + 1);
    AcceptsExactlyTheDates(last);
    assert Candidate(last, 0) == last && Candidate(last, 1) == IsoText(Civil(10000, 1, 1));
    assert SearchFrom(last, {last}, 0) == SearchFrom(last, {last}, 1);
  }

  /** At the end of the calendar a text comes back that no calendar operation takes. */
  lemma NextAvailablePastTheEnd()
    ensures NextAvailable("9999-12-31", {"9999-12-31"}) == Ok("+010000-01") && !IsDate("+010000-01")
  {
    LastDayText();
    OverText();
    hide *;
    PastTheEnd("9999-12-31");
  }
}
