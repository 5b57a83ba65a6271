/**
 * POSIX seconds and calendar dates: atcacert_gmtime32 and atcacert_mkgmtime32 of
 * src/cryptoauthlib/lib/atcacert/atcacert_date.c, and what makes them inverses.
 */
module PosixTime {
  import opened Bytes

  /** atcacert_tm_utc_t: mon counts from 0, year from 1900. */
  datatype Tm = Tm(sec: int, min: int, hour: int, mday: int, mon: int, year: int)

  predicate IsLeap(year: int) {
    year % 400 == 0 || (year % 4 == 0 && year % 100 != 0)
  }

  function YearSecs(year: int): (s: nat)
    ensures s >= 365 * 86400
  {
    if IsLeap(year) then 366 * 86400 else 365 * 86400
  }

  function MonthSecs(year: int, mon: nat): nat {
    if mon == 1 && IsLeap(year) then 2505600
    else if mon < 12 then
      [2678400, 2419200, 2678400, 2592000, 2678400, 2592000,
       2678400, 2678400, 2592000, 2678400, 2592000, 2678400][mon]
    else 0
  }

  /** Seconds from the epoch to the start of a year, and from there to the start of a month. */
  function YearStart(year: int): nat
    decreases year
  {
    if year <= 1970 then 0 else YearStart(year - 1) + YearSecs(year - 1)
  }

  function MonthStart(year: int, mon: int): nat
    decreases mon
  {
    if mon <= 0 then 0 else MonthStart(year, mon - 1) + MonthSecs(year, mon - 1)
  }

  /** Seconds since the epoch, before any 32-bit wrap-around. */
  function Seconds(t: Tm): int {
    YearStart(t.year + 1900) + MonthStart(t.year + 1900, t.mon)
    + (t.mday - 1) * 86400 + t.hour * 3600 + t.min * 60 + t.sec
  }

  /** A date and time that exists in the Gregorian calendar, not before 1970. */
  predicate IsCalendar(t: Tm) {
    && 70 <= t.year && 0 <= t.mon < 12
    && 1 <= t.mday && t.mday * 86400 <= MonthSecs(t.year + 1900, t.mon)
    && 0 <= t.hour < 24 && 0 <= t.min < 60 && 0 <= t.sec < 60
  }

  /** Chronological order, field by field. */
  predicate Before(t: Tm, u: Tm) {
    if t.year != u.year then t.year < u.year
    else if t.mon != u.mon then t.mon < u.mon
    else if t.mday != u.mday then t.mday < u.mday
    else if t.hour != u.hour then t.hour < u.hour
    else if t.min != u.min then t.min < u.min
    else t.sec < u.sec
  }

  // ----- the order of dates is the order of their seconds -----

  lemma MonthsOfYear(year: int)
    ensures MonthStart(year, 12) == YearSecs(year)
    ensures forall m: nat :: m < 12 ==> MonthSecs(year, m) >= 28 * 86400
  {
    assert MonthStart(year, 6) == MonthStart(year, 3) + MonthSecs(year, 3) + MonthSecs(year, 4) + MonthSecs(year, 5);
    assert MonthStart(year, 9) == MonthStart(year, 6) + MonthSecs(year, 6) + MonthSecs(year, 7) + MonthSecs(year, 8);
    assert MonthStart(year, 12) == MonthStart(year, 9) + MonthSecs(year, 9) + MonthSecs(year, 10) + MonthSecs(year, 11);
  }

  lemma {:induction false} MonthStartMonotone(year: int, m: int, n: int)
    requires 0 <= m <= n
    ensures MonthStart(year, m) <= MonthStart(year, n)
    ensures m < n ==> MonthStart(year, m) + MonthSecs(year, m) <= MonthStart(year, n)
    decreases n - m
  {
    if m < n {
      MonthStartMonotone(year, m, n - 1);
    }
  }

  lemma {:induction false} YearStartMonotone(y: int, z: int)
    requires 1970 <= y <= z
    ensures YearStart(y) <= YearStart(z)
    ensures y < z ==> YearStart(y) + YearSecs(y) <= YearStart(z)
    decreases z - y
  {
    if y < z {
      YearStartMonotone(y, z - 1);
    }
  }

  lemma MonthSteps(year: int)
    ensures MonthStart(year, 0) == 0
    ensures forall m: nat :: MonthStart(year, m + 1) == MonthStart(year, m) + MonthSecs(year, m)
  {
  }

  /** A calendar date lies inside its year and its month. */
  lemma WithinMonth(t: Tm)
    requires IsCalendar(t)
    ensures t.year >= 70 && t.mon >= 0
    ensures var y := t.year + 1900;
            && YearStart(y) + MonthStart(y, t.mon) <= Seconds(t)
            && Seconds(t) < YearStart(y) + MonthStart(y, t.mon) + MonthSecs(y, t.mon)
            && Seconds(t) < YearStart(y) + YearSecs(y)
  {
    MonthsOfYear(t.year + 1900);
    MonthStartMonotone(t.year + 1900, t.mon, 12);
  }

  /** mkgmtime32 is strictly increasing in date order, and only then. */
  lemma SecondsOrder(t: Tm, u: Tm)
    requires IsCalendar(t) && IsCalendar(u)
    ensures Before(t, u) <==> Seconds(t) < Seconds(u)
  {
    if Before(t, u) {
      SecondsIncrease(t, u);
    } else if t != u {
      SecondsIncrease(u, t);
    }
  }

  lemma SecondsIncrease(t: Tm, u: Tm)
    requires IsCalendar(t) && IsCalendar(u) && Before(t, u)
    ensures Seconds(t) < Seconds(u)
  {
    hide MonthStart, YearStart, MonthSecs, YearSecs;
    if t.year < u.year || t.mon < u.mon {
      LaterMonth(t, u);
    } else {
      assert t.mday != u.mday ==> t.mday + 1 <= u.mday;
    }
  }

  lemma LaterMonth(t: Tm, u: Tm)
    requires IsCalendar(t) && IsCalendar(u)
    requires t.year < u.year || (t.year == u.year && t.mon < u.mon)
    ensures Seconds(t) < Seconds(u)
  {
    hide MonthStart, YearStart, MonthSecs, YearSecs, Seconds, IsCalendar;
    WithinMonth(t);
    WithinMonth(u);
    if t.year < u.year {
      YearStartMonotone(t.year + 1900, u.year + 1900);
    } else {
      MonthStartMonotone(t.year + 1900, t.mon, u.mon);
    }
  }

  // ----- gmtime32 -----

  /** The year reached from year after rem seconds, and the seconds left over. */
  function FindYear(rem: nat, year: int): (int, nat)
    decreases rem
  {
    if rem < YearSecs(year) then (year, rem) else FindYear(rem - YearSecs(year), year + 1)
  }

  function FindMonth(rem: nat, year: int, mon: nat): (int, nat)
    decreases 12 - mon
  {
    if mon >= 12 || rem < MonthSecs(year, mon) then (mon, rem)
    else FindMonth(rem - MonthSecs(year, mon), year, mon + 1)
  }

  function Gmtime(posix: nat): Tm {
    var (year, inYear) := FindYear(posix, 1970);
    var (mon, inMonth) := FindMonth(inYear, year, 0);
    MakeDate(year, mon, inMonth)
  }

  /** The date inMonth seconds into a month. */
  function MakeDate(year: int, mon: int, inMonth: nat): Tm {
    Tm(inMonth % 86400 % 3600 % 60, inMonth % 86400 % 3600 / 60, inMonth % 86400 / 3600,
       1 + inMonth / 86400, mon, year - 1900)
  }

  lemma {:induction false} FindYearSound(rem: nat, year: int)
    requires year >= 1970
    ensures var (y, r) := FindYear(rem, year);
            y >= year && YearStart(y) + r == YearStart(year) + rem && r < YearSecs(y)
    decreases rem
  {
    if rem >= YearSecs(year) {
      FindYearSound(rem - YearSecs(year), year + 1);
    }
  }

  lemma {:induction false} FindMonthSound(rem: nat, year: int, mon: nat)
    requires mon <= 12 && MonthStart(year, mon) + rem < YearSecs(year)
    ensures var (m, r) := FindMonth(rem, year, mon);
            mon <= m < 12 && MonthStart(year, m) + r == MonthStart(year, mon) + rem && r < MonthSecs(year, m)
    decreases 12 - mon
  {
    MonthsOfYear(year);
    if mon < 12 && rem >= MonthSecs(year, mon) {
      FindMonthSound(rem - MonthSecs(year, mon), year, mon + 1);
    }
  }

  lemma SplitDay(rem: nat)
    requires rem < 86400
    ensures rem / 3600 < 24 && rem % 3600 / 60 < 60 && rem % 3600 % 60 < 60
    ensures rem / 3600 * 3600 + rem % 3600 / 60 * 60 + rem % 3600 % 60 == rem
  {
  }

  lemma MonthIsWholeDays(year: int, mon: nat) returns (days: nat)
    ensures MonthSecs(year, mon) == days * 86400
  {
    days := if mon == 1 && IsLeap(year) then 29
            else if mon < 12 then [31, 28, 31, 30, 31, 30, 31, 31, 30, 31, 30, 31][mon] else 0;
  }

  lemma MadeDate(year: int, mon: nat, inMonth: nat)
    requires 1970 <= year && mon < 12 && inMonth < MonthSecs(year, mon)
    ensures IsCalendar(MakeDate(year, mon, inMonth))
    ensures Seconds(MakeDate(year, mon, inMonth)) == YearStart(year) + MonthStart(year, mon) + inMonth
  {
    var days := MonthIsWholeDays(year, mon);
    hide MonthSecs, YearStart, MonthStart;
    SplitDay(inMonth % 86400);
  }

  /** Every second since the epoch is the second of the calendar date gmtime32 returns. */
  lemma GmtimeSound(posix: nat)
    ensures IsCalendar(Gmtime(posix)) && Seconds(Gmtime(posix)) == posix
  {
    hide FindYear, FindMonth, IsCalendar, Seconds, YearSecs, MonthSecs, MakeDate;
    var (year, inYear) := FindYear(posix, 1970);
    FindYearSound(posix, 1970);
    FindMonthSound(inYear, year, 0);
    var (mon, inMonth) := FindMonth(inYear, year, 0);
    MadeDate(year, mon, inMonth);
  }

  /** mkgmtime32 undoes gmtime32 on every 32-bit count. */
  lemma CountRoundTrip(posix: nat)
    requires posix < U32
    ensures Seconds(Gmtime(posix)) % U32 == posix
  {
    hide Gmtime, Seconds;
    GmtimeSound(posix);
  }

  /** gmtime32 undoes mkgmtime32 on every date that exists. */
  lemma CalendarRoundTrip(t: Tm)
    requires IsCalendar(t)
    ensures Seconds(t) >= 0 && Gmtime(Seconds(t)) == t
  {
    hide YearStart, MonthStart, MonthSecs, YearSecs, Gmtime, Seconds;
    WithinMonth(t);
    var u := Gmtime(Seconds(t));
    GmtimeSound(Seconds(t));
    SecondsOrder(t, u);
    SecondsOrder(u, t);
  }

  /** 2106-02-07 06:28:15, the last second a 32-bit count can name. */
  const LastSecond: Tm := Tm(15, 28, 6, 7, 1, 206)

  lemma LastSecondCount()
    ensures IsCalendar(LastSecond) && Seconds(LastSecond) == U32 - 1
  {
    hide YearStart;
    PosixFormula(2106);
    assert MonthStart(2106, 1) == 2678400;
  }

  /** The count of a calendar date fits 32 bits exactly up to LastSecond. */
  lemma NoWrapUpToLastSecond(t: Tm)
    requires IsCalendar(t)
    ensures Seconds(t) < U32 <==> !Before(LastSecond, t)
  {
    hide Seconds, Before;
    LastSecondCount();
    SecondsOrder(LastSecond, t);
  }

  /** The sum over years agrees with the leap-day formula in POSIX.1, section 4.16. */
  lemma {:induction false} PosixFormula(year: int)
    requires year >= 1970
    ensures var y := year - 1900;
            YearStart(year) == (y - 70) * 31536000 + ((y - 69) / 4) * 86400 - ((y - 1) / 100) * 86400 + ((y + 299) / 400) * 86400
  {
    if year > 1970 {
      PosixFormula(year - 1);
      LeapDays(year - 1);
    }
  }

  lemma LeapDays(year: int)
    ensures var y := year - 1900;
            (y - 68) / 4 - y / 100 + (y + 300) / 400 - ((y - 69) / 4 - (y - 1) / 100 + (y + 299) / 400)
            == if IsLeap(year) then 1 else 0
  {
    var y := year - 1900;
    Quotients(y);
    Residues(y);
  }

  lemma Residues(y: int)
    ensures (y - 68) % 4 == 0 <==> (y + 1900) % 4 == 0
    ensures y % 100 == 0 <==> (y + 1900) % 100 == 0
    ensures (y + 300) % 400 == 0 <==> (y + 1900) % 400 == 0
    ensures (y + 1900) % 400 == 0 ==> (y + 1900) % 100 == 0
    ensures (y + 1900) % 100 == 0 ==> (y + 1900) % 4 == 0
  {
    ByFour(y);
    ByHundred(y);
    ByFourHundred(y);
    HundredInFourHundred(y + 1900);
    FourInHundred(y + 1900);
  }

  lemma ByFour(y: int)
    ensures (y - 68) % 4 == 0 <==> (y + 1900) % 4 == 0
  {
  }

  lemma ByHundred(y: int)
    ensures y % 100 == 0 <==> (y + 1900) % 100 == 0
  {
  }

  lemma ByFourHundred(y: int)
    ensures (y + 300) % 400 == 0 <==> (y + 1900) % 400 == 0
  {
  }

  lemma HundredInFourHundred(n: int)
    ensures n % 400 == 0 ==> n % 100 == 0
  {
  }

  lemma FourInHundred(n: int)
    ensures n % 100 == 0 ==> n % 4 == 0
  {
  }

  lemma Quotients(y: int)
    ensures (y - 68) / 4 == (y - 69) / 4 + if (y - 68) % 4 == 0 then 1 else 0
    ensures y / 100 == (y - 1) / 100 + if y % 100 == 0 then 1 else 0
    ensures (y + 300) / 400 == (y + 299) / 400 + if (y + 300) % 400 == 0 then 1 else 0
  {
  }

  /** A year of 366 days in the Gregorian calendar. */
  predicate LeapYear(year: int) {
    year % 4 == 0 && (year % 100 == 0 ==> year % 400 == 0)
  }

  /** Thirty days have April, June, September and November; February 28, or 29 in a leap year. */
  function DaysIn(year: int, mon: nat): nat {
    if mon == 3 || mon == 5 || mon == 8 || mon == 10 then 30 else if mon == 1 then (if LeapYear(year) then 29 else 28) else 31
  }

  /** Days from 1 January to the first of a month. */
  function DaysBefore(year: int, mon: nat): nat
    requires mon < 12
  {
    [0, 31, 59, 90, 120, 151, 181, 212, 243, 273, 304, 334][mon] + if mon > 1 && LeapYear(year) then 1 else 0
  }

  /** The dates that exist. */
  lemma CalendarForm(t: Tm)
    ensures IsCalendar(t)
            <==> && 1970 <= t.year + 1900 && 0 <= t.mon <= 11 && 1 <= t.mday <= DaysIn(t.year + 1900, t.mon)
                 && 0 <= t.hour <= 23 && 0 <= t.min <= 59 && 0 <= t.sec <= 59
  {
  }

  lemma {:induction false} MonthsBefore(year: int, mon: nat)
    requires mon < 12
    ensures MonthStart(year, mon) == DaysBefore(year, mon) * 86400
  {
    if mon > 0 {
      MonthsBefore(year, mon - 1);
      MonthIsAdded(year, mon - 1);
    }
  }

  lemma MonthIsAdded(year: int, mon: nat)
    requires mon < 11
    ensures DaysBefore(year, mon + 1) * 86400 == DaysBefore(year, mon) * 86400 + MonthSecs(year, mon)
  {
  }

  /** Seconds since the epoch, by POSIX.1, section 4.16, from the day of the year. */
  lemma SecondsForm(t: Tm)
    requires 0 <= t.mon <= 11 && 70 <= t.year
    ensures var yday := DaysBefore(t.year + 1900, t.mon) + t.mday - 1;
            Seconds(t) == t.sec + t.min * 60 + t.hour * 3600 + yday * 86400
                          + (t.year - 70) * 31536000 + ((t.year - 69) / 4) * 86400
                          - ((t.year - 1) / 100) * 86400 + ((t.year + 299) / 400) * 86400
  {
    hide YearStart, MonthStart, DaysBefore;
    PosixFormula(t.year + 1900);
    MonthsBefore(t.year + 1900, t.mon);
  }

  /** atcacert_gmtime32. */
  method Gmtime32(posix: nat) returns (t: Tm)
    requires posix < U32
    ensures t == Gmtime(posix)
  {
    hide FindYear, FindMonth, MakeDate;
    var year, inYear := CountYears(posix);
    FindYearSound(posix, 1970);
    var mon, inMonth := CountMonths(year, inYear);
    t := SplitMonth(year, mon, inMonth);
  }

  /** Its first loop. */
  method CountYears(posix: nat) returns (year: int, rem: nat)
    ensures (year, rem) == FindYear(posix, 1970)
  {
    hide YearSecs;
    year, rem := 1970, posix;
    var secs := YearSecs(year);
    while rem >= secs
      invariant year >= 1970 && secs == YearSecs(year)
      invariant FindYear(posix, 1970) == FindYear(rem, year)
      decreases rem
    {
      year := year + 1;
      rem := rem - secs;
      secs := YearSecs(year);
    }
  }

  /** Its second loop, which stops by December: a thirteenth month would take 0 seconds and never end it. */
  method CountMonths(year: int, inYear: nat) returns (mon: nat, rem: nat)
    requires inYear < YearSecs(year)
    ensures (mon, rem) == FindMonth(inYear, year, 0) && mon <= 11
  {
    hide YearSecs, MonthSecs, MonthStart;
    mon, rem := 0, inYear;
    MonthsOfYear(year);
    MonthSteps(year);
    var secs := MonthSecs(year, mon);
    while rem >= secs
      invariant mon <= 11 && secs == MonthSecs(year, mon)
      invariant MonthStart(year, mon) + rem < YearSecs(year)
      invariant FindMonth(inYear, year, 0) == FindMonth(rem, year, mon)
      decreases rem
    {
      mon := mon + 1;
      rem := rem - secs;
      secs := MonthSecs(year, mon);
    }
  }

  /** Lines 747-758 of atcacert_date.c. */
  method SplitMonth(year: int, mon: int, inMonth: nat) returns (t: Tm)
    ensures t == MakeDate(year, mon, inMonth)
  {
    var rem := inMonth;
    var mday := 1 + rem / 86400;
    rem := rem % 86400;
    var hour := rem / 3600;
    rem := rem % 3600;
    var min := rem / 60;
    rem := rem % 60;
    t := Tm(rem, min, hour, mday, mon, year - 1900);
  }

  /** uint32_t addition, and scaling of a C int converted to uint32_t. */
  function Add32(a: int, b: int): nat { (a + b) % U32 }

  function Scale32(x: int, k: nat): nat { x % U32 * k % U32 }

  lemma Add32Sum(a: int, b: int)
    ensures Add32(a % U32, b) == (a + b) % U32
  {
  }

  lemma Add32Scaled(a: int, x: int, k: nat)
    ensures Add32(a % U32, Scale32(x, k)) == (a + x * k) % U32
  {
    var q := x / U32;
    assert x == U32 * q + x % U32;
    assert x * k == U32 * (q * k) + x % U32 * k;
    var p := x % U32 * k;
    Shift32(a + p, q * k);
    Shift32(a % U32 + p % U32, a / U32 + p / U32);
  }

  lemma Shift32(a: int, q: int)
    ensures (a + U32 * q) % U32 == a % U32
  {
  }

  /** atcacert_mkgmtime32. */
  method Mkgmtime32(t: Tm) returns (posix: nat)
    ensures posix == Seconds(t) % U32
  {
    hide MonthSecs, YearSecs, Add32, Scale32;
    posix := 0;
    var year := t.year + 1900;
    var cur := year - 1;
    ghost var sum := 0;
    while cur >= 1970
      invariant cur <= year - 1 && (cur >= 1969 || cur == year - 1)
      invariant sum + YearStart(cur + 1) == YearStart(year)
      invariant posix == sum % U32
    {
      Add32Sum(sum, YearSecs(cur));
      posix := Add32(posix, YearSecs(cur));
      sum := sum + YearSecs(cur);
      cur := cur - 1;
    }
    cur := t.mon - 1;
    while cur >= 0
      invariant cur <= t.mon - 1 && (cur >= -1 || cur == t.mon - 1)
      invariant sum + MonthStart(year, cur + 1) == YearStart(year) + MonthStart(year, t.mon)
      invariant posix == sum % U32
    {
      Add32Sum(sum, MonthSecs(year, cur));
      posix := Add32(posix, MonthSecs(year, cur));
      sum := sum + MonthSecs(year, cur);
      cur := cur - 1;
    }
    Add32Scaled(sum, t.mday - 1, 86400);
    posix := Add32(posix, Scale32(t.mday - 1, 86400));
    sum := sum + (t.mday - 1) * 86400;
    Add32Scaled(sum, t.hour, 3600);
    posix := Add32(posix, Scale32(t.hour, 3600));
    sum := sum + t.hour * 3600;
    Add32Scaled(sum, t.min, 60);
    posix := Add32(posix, Scale32(t.min, 60));
    sum := sum + t.min * 60;
    Add32Scaled(sum, t.sec, 1);
    posix := Add32(posix, Scale32(t.sec, 1));
  }
}
