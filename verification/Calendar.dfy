/** Calendar arithmetic in UTC: `timegm`, its closed form for leap years, and the decoding that inverts
    it. */
module Calendar {

  /** Broken-down time, with the offsets of the C structure: years from 1900, months from 0. */
  datatype Tm = Tm(year: int, mon: int, mday: int, hour: int, min: int, sec: int)

  const EPOCH := 1970

  predicate IsLeap(y: int) {
    y % 4 == 0 && (y % 100 != 0 || y % 400 == 0)
  }

  function YearDays(y: int): nat {
    if IsLeap(y) then 366 else 365
  }

  function MonthDays(leap: bool, mon: nat): (n: nat)
    requires mon < 12
    ensures 28 <= n <= 31
  {
    if mon == 1 then (if leap then 29 else 28)
    else if mon == 3 || mon == 5 || mon == 8 || mon == 10 then 30
    else 31
  }

  // ---- counting days -------------------------------------------------------------------------

  /** Days from the epoch to the start of a year, counted year by year. */
  ghost function YearStart(y: int): int
    decreases if y < EPOCH then EPOCH - y else y - EPOCH
  {
    if y == EPOCH then 0
    else if y > EPOCH then YearStart(y - 1) + YearDays(y - 1)
    else YearStart(y + 1) - YearDays(y)
  }

  /** Days from the start of a year to the start of a month, counted month by month. */
  function MonthStart(leap: bool, mon: nat): nat
    requires mon <= 12
  {
    if mon == 0 then 0 else MonthStart(leap, mon - 1) + MonthDays(leap, mon - 1)
  }

  function CalcLeapYears(y: int): int {
    (y - 1) / 4 - (y - 1) / 100 + (y - 1) / 400
  }

  lemma {:induction false} YearSteps(y: int)
    ensures YearStart(y + 1) == YearStart(y) + YearDays(y)
  {
  }

  lemma LeapSteps(y: int)
    ensures CalcLeapYears(y + 1) - CalcLeapYears(y) == if IsLeap(y) then 1 else 0
  {
    assert y / 4 - (y - 1) / 4 == if y % 4 == 0 then 1 else 0;
    assert y / 100 - (y - 1) / 100 == if y % 100 == 0 then 1 else 0;
    assert y / 400 - (y - 1) / 400 == if y % 400 == 0 then 1 else 0;
    assert y % 400 == 0 ==> y % 100 == 0;
    assert y % 100 == 0 ==> y % 4 == 0;
  }

  /** The closed form for the start of a year equals counting, for every year. */
  lemma {:induction false} ClosedForm(y: int)
    ensures (y - EPOCH) * 365 + (CalcLeapYears(y) - CalcLeapYears(EPOCH)) == YearStart(y)
    decreases if y < EPOCH then EPOCH - y else y - EPOCH
  {
    if y > EPOCH {
      ClosedForm(y - 1);
      LeapSteps(y - 1);
    } else if y < EPOCH {
      ClosedForm(y + 1);
      LeapSteps(y);
      YearSteps(y);
    }
  }

  // ---- timegm --------------------------------------------------------------------------------

  predicate InBounds(tm: Tm) {
    && tm.year >= 0
    && 0 <= tm.mon <= 11
    && 1 <= tm.mday <= MonthDays(IsLeap(tm.year + 1900), tm.mon)
    && 0 <= tm.min <= 59 && 0 <= tm.sec <= 60 && 0 <= tm.hour <= 23
  }

  ghost function Day(tm: Tm): int
    requires InBounds(tm)
  {
    YearStart(tm.year + 1900) + MonthStart(IsLeap(tm.year + 1900), tm.mon) + (tm.mday - 1)
  }

  function Clock(tm: Tm): int {
    tm.hour * 3600 + tm.min * 60 + tm.sec
  }

  /** Seconds since the epoch: days counted one by one, and the time of day. */
  ghost function Seconds(tm: Tm): int {
    if InBounds(tm) then Day(tm) * 86400 + Clock(tm) else -1
  }

  method TimeGm(tm: Tm) returns (res: int)
    ensures res == Seconds(tm)
  {
    if tm.year < 0 {
      return -1;
    }
    var leap := IsLeap(tm.year + 1900);
    if tm.mon < 0 || tm.mon > 11 || tm.mday < 1 || tm.mday > MonthDays(leap, tm.mon)
       || tm.min < 0 || tm.min > 59 || tm.sec < 0 || tm.sec > 60 || tm.hour < 0 || tm.hour > 23 {
      return -1;
    }
    res := (tm.year - 70) * 365 + (CalcLeapYears(tm.year + 1900) - CalcLeapYears(EPOCH));
    ClosedForm(tm.year + 1900);
    for i := 0 to tm.mon
      invariant res == YearStart(tm.year + 1900) + MonthStart(leap, i)
    {
      res := res + MonthDays(leap, i);
    }
    res := res + (tm.mday - 1);
    res := res * 24;
    res := res + tm.hour;
    res := res * 60;
    res := res + tm.min;
    res := res * 60;
    res := res + tm.sec;
  }

  /** The start of each month in closed form: from March on, 153 days for every five months. */
  lemma MonthStartClosed(leap: bool, mon: nat)
    requires mon <= 12
    ensures MonthStart(leap, mon) == if mon < 2 then 31 * mon else (153 * (mon - 2) + 2) / 5 + (if leap then 60 else 59)
  {
    var d := if leap then 60 else 59;
    assert MonthStart(leap, 1) == 31;
    assert MonthStart(leap, 2) == d;
    assert MonthStart(leap, 3) == d + 31;
    assert MonthStart(leap, 4) == d + 61;
    assert MonthStart(leap, 5) == d + 92;
    assert MonthStart(leap, 6) == d + 122;
    assert MonthStart(leap, 7) == d + 153;
    assert MonthStart(leap, 8) == d + 184;
    assert MonthStart(leap, 9) == d + 214;
    assert MonthStart(leap, 10) == d + 245;
    assert MonthStart(leap, 11) == d + 275;
  }

  /** The day of the year, counted from 0. */
  function DayOfYear(tm: Tm): int
    requires 0 <= tm.mon < 12
  {
    var leap := (tm.year + 1900) % 4 == 0 && ((tm.year + 1900) % 100 != 0 || (tm.year + 1900) % 400 == 0);
    tm.mday - 1 + if tm.mon < 2 then 31 * tm.mon else (153 * (tm.mon - 2) + 2) / 5 + (if leap then 60 else 59)
  }

  /** Times that are out of bounds: what is accepted are the days of each month, and one leap second. */
  lemma BoundsAreExact(tm: Tm)
    ensures InBounds(tm) <==>
      && tm.year >= 0 && 0 <= tm.mon < 12 && 0 <= tm.hour < 24 && 0 <= tm.min < 60 && 0 <= tm.sec <= 60 && tm.mday >= 1
      && DayOfYear(tm) < DayOfYear(if tm.mon == 11 then tm.(mon := 11, mday := 32) else tm.(mon := tm.mon + 1, mday := 1))
  {
    if 0 <= tm.mon < 12 {
      MonthStartClosed(IsLeap(tm.year + 1900), tm.mon);
      MonthStartClosed(IsLeap(tm.year + 1900), tm.mon + 1);
    }
  }

  /** Section 4.16 of POSIX.1-2017, XBD: seconds since the Epoch, for years from 1970 on. */
  lemma PosixFormula(tm: Tm)
    requires InBounds(tm) && tm.year >= 70
    ensures var yday := DayOfYear(tm);
            Seconds(tm) == tm.sec + tm.min * 60 + tm.hour * 3600 + yday * 86400 + (tm.year - 70) * 31536000
                         + (tm.year - 69) / 4 * 86400 - (tm.year - 1) / 100 * 86400 + (tm.year + 299) / 400 * 86400
  {
    var t := tm.year;
    ClosedForm(t + 1900);
    MonthStartClosed(IsLeap(t + 1900), tm.mon);
    assert (t + 1899) / 4 == (t - 69) / 4 + 492;
    assert (t + 1899) / 100 == (t - 1) / 100 + 19;
    assert (t + 1899) / 400 == (t + 299) / 400 + 4;
  }

  // ---- order ---------------------------------------------------------------------------------

  /** Earlier in the calendar: the first field that differs decides. */
  predicate Earlier(a: Tm, b: Tm) {
    if a.year != b.year then a.year < b.year
    else if a.mon != b.mon then a.mon < b.mon
    else if a.mday != b.mday then a.mday < b.mday
    else if a.hour != b.hour then a.hour < b.hour
    else if a.min != b.min then a.min < b.min
    else a.sec < b.sec
  }

  /** A valid time that is not in a leap second. */
  predicate Proper(tm: Tm) {
    InBounds(tm) && tm.sec <= 59
  }

  lemma {:induction false} MonthsGrow(leap: bool, a: nat, b: nat)
    requires a < b <= 12
    ensures MonthStart(leap, a) + MonthDays(leap, a) <= MonthStart(leap, b)
  {
    if a < b - 1 { MonthsGrow(leap, a, b - 1); }
  }

  lemma YearHasItsMonths(y: int)
    ensures MonthStart(IsLeap(y), 12) == YearDays(y)
  {
    MonthStartClosed(IsLeap(y), 12);
  }

  lemma {:induction false} YearsGrow(a: int, b: int)
    requires a < b
    ensures YearStart(a) + YearDays(a) <= YearStart(b)
    decreases b - a
  {
    YearSteps(b - 1);
    if a < b - 1 { YearsGrow(a, b - 1); }
  }

  lemma DayInYear(tm: Tm)
    requires InBounds(tm)
    ensures YearStart(tm.year + 1900) <= Day(tm) < YearStart(tm.year + 1900) + YearDays(tm.year + 1900)
  {
    var leap := IsLeap(tm.year + 1900);
    YearHasItsMonths(tm.year + 1900);
    MonthsGrow(leap, tm.mon, 12);
  }

  /** `timegm` is strictly increasing. */
  lemma EarlierIsLess(a: Tm, b: Tm)
    requires Proper(a) && Proper(b) && Earlier(a, b)
    ensures Seconds(a) < Seconds(b)
  {
    if a.year != b.year {
      YearsGrow(a.year + 1900, b.year + 1900);
      DayInYear(a);
      DayInYear(b);
    } else if a.mon != b.mon {
      MonthsGrow(IsLeap(a.year + 1900), a.mon, b.mon);
    }
  }

  /** And so tells all proper times apart. */
  lemma SecondsAreDistinct(a: Tm, b: Tm)
    requires Proper(a) && Proper(b) && Seconds(a) == Seconds(b)
    ensures a == b
  {
    if a != b {
      if Earlier(a, b) { EarlierIsLess(a, b); } else { EarlierIsLess(b, a); }
    }
  }

  // ---- decoding ------------------------------------------------------------------------------

  /** The year that day `day` falls in, from year `y` on. */
  ghost function YearOf(day: nat, y: int): (r: int)
    requires YearStart(y) <= day
    ensures r >= y && YearStart(r) <= day < YearStart(r) + YearDays(r)
    decreases day - YearStart(y)
  {
    YearSteps(y);
    if day < YearStart(y + 1) then y else YearOf(day, y + 1)
  }

  /** The month that day `yday` of a year falls in, from month `mon` on. */
  function MonthOf(leap: bool, yday: nat, mon: nat): (r: nat)
    requires mon < 12 && MonthStart(leap, mon) <= yday < MonthStart(leap, 12)
    ensures r < 12 && MonthStart(leap, r) <= yday < MonthStart(leap, r) + MonthDays(leap, r)
    decreases 12 - mon
  {
    if yday < MonthStart(leap, mon) + MonthDays(leap, mon) then mon else MonthOf(leap, yday, mon + 1)
  }

  /** Broken-down time of a second since the epoch, by counting years and months off the days. */
  ghost function GmTime(t: nat): (tm: Tm)
    ensures Proper(tm) && tm.year >= 70 && Seconds(tm) == t
  {
    var day, clock := t / 86400, t % 86400;
    var y := YearOf(day, EPOCH);
    var leap, yday := IsLeap(y), day - YearStart(y);
    YearHasItsMonths(y);
    var mon := MonthOf(leap, yday, 0);
    var tm := Tm(y - 1900, mon, yday - MonthStart(leap, mon) + 1, clock / 3600, clock / 60 % 60, clock % 60);
    assert Clock(tm) == clock by { ClockSplits(clock); }
    tm
  }

  lemma ClockSplits(clock: nat)
    ensures clock / 3600 * 3600 + clock / 60 % 60 * 60 + clock % 60 == clock
  {
    assert clock / 3600 == clock / 60 / 60;
  }

  /** Decoding and `timegm` are inverse to each other: on every second since the epoch, and on every
      proper time from 1970 on. */
  lemma TimeGmInvertsGmTime(t: nat, tm: Tm)
    requires Proper(tm) && tm.year >= 70
    ensures Seconds(GmTime(t)) == t
    ensures Seconds(tm) >= 0 && GmTime(Seconds(tm)) == tm
  {
    DayInYear(tm);
    if tm.year > 70 { YearsGrow(EPOCH, tm.year + 1900); }
    SecondsAreDistinct(GmTime(Seconds(tm)), tm);
  }

  /** Later seconds decode to later times. */
  lemma GmTimeGrows(t: nat, u: nat)
    requires t < u
    ensures Earlier(GmTime(t), GmTime(u))
  {
    if Earlier(GmTime(u), GmTime(t)) {
      EarlierIsLess(GmTime(u), GmTime(t));
    }
  }

  /** The first second of the year 2100 and of the year 10000. */
  const Y2100 := 4102444800
  const Y10000 := 253402300800

  /** The second a year starts at, in closed form. */
  function YearSeconds(y: int): int {
    ((y - EPOCH) * 365 + (CalcLeapYears(y) - CalcLeapYears(EPOCH))) * 86400
  }

  lemma BeforeYear(t: nat, y: int)
    ensures GmTime(t).year + 1900 < y <==> t < YearSeconds(y)
  {
    var tm := GmTime(t);
    DayInYear(tm);
    ClosedForm(y);
    var z := tm.year + 1900;
    if z < y { YearsGrow(z, y); } else if z > y { YearsGrow(y, z); }
    assert t == Day(tm) * 86400 + Clock(tm) && 0 <= Clock(tm) < 86400;
  }

  lemma YearBounds(t: nat)
    ensures GmTime(t).year + 1900 < 2100 <==> t < Y2100
    ensures GmTime(t).year + 1900 < 10000 <==> t < Y10000
  {
    BeforeYear(t, 2100);
    BeforeYear(t, 10000);
    assert YearSeconds(2100) == Y2100 && YearSeconds(10000) == Y10000;
  }
}
