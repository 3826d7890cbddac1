/** Broken-down UTC time and HTTP dates: ngx_gmtime, ngx_http_time and ngx_parse_http_time,
    against the proleptic Gregorian calendar counted year by year and month by month. */
module Calendar {

  predicate Leap(y: nat) {
    y % 4 == 0 && (y % 100 != 0 || y % 400 == 0)
  }

  function YearDays(y: nat): nat {
    if Leap(y) then 366 else 365
  }

  function MonthDays(y: nat, m: nat): nat
    requires 1 <= m <= 12
  {
    if m == 2 then (if Leap(y) then 29 else 28)
    else if m == 4 || m == 6 || m == 9 || m == 11 then 30 else 31
  }

  /** Days from January 1 of year 0 to January 1 of year y. */
  function DaysBeforeYear(y: nat): nat {
    if y == 0 then 0 else DaysBeforeYear(y - 1) + YearDays(y - 1)
  }

  function DaysBeforeMonth(y: nat, m: nat): nat
    requires 1 <= m <= 12
  {
    if m == 1 then 0 else DaysBeforeMonth(y, m - 1) + MonthDays(y, m - 1)
  }

  datatype Tm = Tm(year: nat, mon: nat, mday: nat, hour: nat, min: nat, sec: nat, wday: nat)

  predicate ValidDate(y: nat, m: nat, d: nat) {
    1 <= m <= 12 && 1 <= d <= MonthDays(y, m)
  }

  predicate ValidTm(tm: Tm) {
    ValidDate(tm.year, tm.mon, tm.mday) && tm.hour < 24 && tm.min < 60 && tm.sec < 60 && tm.wday < 7
  }

  const EPOCH := 719528

  /** Days since January 1, 1970. Day 0 of a month is the day before it. */
  function DayNumber(y: nat, m: nat, d: nat): int
    requires 1 <= m <= 12
  {
    DaysBeforeYear(y) + DaysBeforeMonth(y, m) + d - 1 - EPOCH
  }

  function Seconds(tm: Tm): int
    requires 1 <= tm.mon <= 12
  {
    DayNumber(tm.year, tm.mon, tm.mday) * 86400 + tm.hour * 3600 + tm.min * 60 + tm.sec
  }

  /** Days from March 1 of year 0 to March 1 of year y, in closed form. */
  function Gauss(y: nat): nat {
    365 * y + y / 4 - y / 100 + y / 400
  }

  /** Days before month m of a year that starts in March: 1 is March, 12 is February. */
  function GaussMonth(m: nat): int {
    367 * m / 12 - 30
  }

  lemma GaussStep(y: nat)
    ensures Gauss(y + 1) == Gauss(y) + YearDays(y + 1)
  {
    Fourth(y);
    Hundredth(y);
    FourHundredth(y);
  }

  lemma Fourth(y: nat)
    ensures (y + 1) / 4 == y / 4 + if (y + 1) % 4 == 0 then 1 else 0
  {
  }

  lemma Hundredth(y: nat)
    ensures (y + 1) / 100 == y / 100 + if (y + 1) % 100 == 0 then 1 else 0
    ensures (y + 1) % 100 == 0 ==> (y + 1) % 4 == 0
  {
    var q := (y + 1) / 100;
    assert (y + 1) % 100 == 0 ==> y + 1 == 4 * (25 * q);
  }

  lemma FourHundredth(y: nat)
    ensures (y + 1) / 400 == y / 400 + if (y + 1) % 400 == 0 then 1 else 0
    ensures (y + 1) % 400 == 0 ==> (y + 1) % 100 == 0
  {
    var q := (y + 1) / 400;
    assert (y + 1) % 400 == 0 ==> y + 1 == 100 * (4 * q);
  }

  lemma {:induction false} YearClosedForm(y: nat)
    requires y >= 1
    ensures DaysBeforeYear(y) == Gauss(y - 1) + 366
  {
    if y > 1 {
      YearClosedForm(y - 1);
      GaussStep(y - 2);
    } else {
      assert DaysBeforeYear(1) == DaysBeforeYear(0) + YearDays(0);
    }
  }

  /** The month table sums up to Gauss' formula, with the year shifted to start in March. */
  lemma MonthClosedForm(y: nat, m: nat)
    requires 1 <= m <= 12
    ensures DaysBeforeMonth(y, m) ==
      if m <= 2 then GaussMonth(m + 10) - 306 else GaussMonth(m - 2) + 59 + (if Leap(y) then 1 else 0)
  {
    if m > 1 {
      MonthClosedForm(y, m - 1);
    }
  }

  /** The day number by the formula both the printer and the parser use. */
  lemma DayNumberIsGauss(y: nat, m: nat, d: nat)
    requires 1 <= m <= 12 && (m <= 2 ==> y >= 1)
    ensures DayNumber(y, m, d) ==
      (if m <= 2 then Gauss(y - 1) + GaussMonth(m + 10) else Gauss(y) + GaussMonth(m - 2)) + d - 1 - 719527 + 59
  {
    MonthClosedForm(y, m);
    if y >= 1 {
      YearClosedForm(y);
      GaussStep(y - 1);
    }
  }

  lemma {:induction false} LaterYear(y: nat, z: nat)
    requires y < z
    ensures DaysBeforeYear(y) + YearDays(y) <= DaysBeforeYear(z)
  {
    if y + 1 < z {
      LaterYear(y, z - 1);
    }
  }

  lemma {:induction false} LaterMonth(y: nat, m: nat, n: nat)
    requires 1 <= m < n <= 12
    ensures DaysBeforeMonth(y, m) + MonthDays(y, m) <= DaysBeforeMonth(y, n)
  {
    if m + 1 < n {
      LaterMonth(y, m, n - 1);
    }
  }

  lemma MonthsFit(y: nat, m: nat)
    requires 1 <= m <= 12
    ensures 0 <= DaysBeforeMonth(y, m) && DaysBeforeMonth(y, m) + MonthDays(y, m) <= YearDays(y)
  {
    if m < 12 {
      LaterMonth(y, m, 12);
    }
    MonthClosedForm(y, 12);
  }

  /** A day number belongs to one date only. */
  lemma DateIsUnique(y: nat, m: nat, d: nat, y': nat, m': nat, d': nat)
    requires ValidDate(y, m, d) && ValidDate(y', m', d') && DayNumber(y, m, d) == DayNumber(y', m', d')
    ensures y == y' && m == m' && d == d'
  {
    MonthsFit(y, m);
    MonthsFit(y', m');
    if y < y' {
      LaterYear(y, y');
    } else if y' < y {
      LaterYear(y', y);
    } else if m < m' {
      LaterMonth(y, m, m');
    } else if m' < m {
      LaterMonth(y, m', m);
    }
  }

  const LAST_DAY := 2932896

  /** Dates outside 1970..9999 are cut off at its ends. */
  function Clamp(t: int): int {
    if t < 0 then 0 else if t / 86400 > LAST_DAY then LAST_DAY * 86400 + 86399 else t
  }

  /** The estimate of the year is right or one too large; then the year day is negative,
      by less than the length of the year before. */
  lemma YearEstimate(days: nat)
    ensures var y := (days + 2) * 400 / 146097;
      days - Gauss(y) >= 0 || (y > 0 && days - Gauss(y - 1) >= 0)
    ensures var y := (days + 2) * 400 / 146097; days < Gauss(y + 1)
  {
    var y := (days + 2) * 400 / 146097;
    var r := (days + 2) * 400 % 146097;
    assert (days + 2) * 400 == 146097 * y + r;
    GaussTimes400(y);
    GaussTimes400(y + 1);
    if y > 0 {
      GaussTimes400(y - 1);
    }
  }

  /** How far the year count lags behind 146097 days in 400 years. */
  lemma GaussTimes400(y: nat)
    ensures 146097 * y - 597 <= 400 * Gauss(y) <= 146097 * y + 288
  {
    var q, c := y / 400, y % 400;
    var k, b := c / 100, c % 100;
    var j, a := b / 4, b % 4;
    assert y == 400 * q + 100 * k + 4 * j + a;
    assert y / 100 == 4 * q + k;
    assert y / 4 == 100 * q + 25 * k + j;
  }

  /** From the day of a year that starts in March to the month and the day of the month. */
  lemma MonthEstimate(yday: nat)
    requires yday < 366
    ensures var m := (yday + 31) * 10 / 306;
      1 <= m <= 12 && GaussMonth(m) <= yday && (m < 12 ==> yday < GaussMonth(m + 1)) && (yday >= 306 <==> m >= 11)
  {
  }

  /** The year, which starts in March, and the day in it. */
  method YearOfDay(days: nat) returns (year: nat, yday: int)
    ensures days == Gauss(year) + yday && 0 <= yday < YearDays(year + 1)
  {
    year := (days + 2) * 400 / (365 * 400 + 100 - 4 + 1);
    yday := days - (365 * year + year / 4 - year / 100 + year / 400);
    YearEstimate(days);
    GaussStep(year);
    assert yday == days - Gauss(year);
    if yday < 0 {
      GaussStep(year - 1);
      hide Gauss;
      var leap := if year % 4 == 0 && (year % 100 != 0 || year % 400 == 0) then 1 else 0;
      yday := 365 + leap + yday;
      year := year - 1;
    }
  }

  /** The date part of ngx_gmtime. */
  method DateOfDay(day: nat) returns (year: nat, mon: nat, mday: nat)
    requires day <= LAST_DAY
    ensures ValidDate(year, mon, mday) && 1970 <= year <= 9999 && DayNumber(year, mon, mday) == day
  {
    var yday;
    year, yday := YearOfDay(day - (31 + 28) + 719527);
    MonthOfYday(day, year, yday);
    mon := (yday + 31) * 10 / 306;
    mday := yday - (367 * mon / 12 - 30) + 1;
    if yday >= 306 {
      year := year + 1;
      mon := mon - 10;
    } else {
      mon := mon + 2;
    }
  }

  lemma MonthDayFits(year: nat, yday: nat)
    requires yday < YearDays(year + 1)
    ensures var m := (yday + 31) * 10 / 306; var d := yday - GaussMonth(m) + 1;
      if yday >= 306 then ValidDate(year + 1, m - 10, d) else ValidDate(year, m + 2, d)
  {
    MonthEstimate(yday);
  }

  lemma MonthOfYday(day: nat, year: nat, yday: nat)
    requires day <= LAST_DAY && day + 719468 == Gauss(year) + yday && yday < YearDays(year + 1)
    ensures var m := (yday + 31) * 10 / 306; var d := yday - GaussMonth(m) + 1;
      && d >= 1 && 1 <= m <= 12
      && if yday >= 306 then
           m > 10 && ValidDate(year + 1, m - 10, d) && 1970 <= year + 1 <= 9999 && DayNumber(year + 1, m - 10, d) == day
         else ValidDate(year, m + 2, d) && 1970 <= year <= 9999 && DayNumber(year, m + 2, d) == day
  {
    MonthEstimate(yday);
    YearRange(day, year, yday);
    MonthDayFits(year, yday);
    hide Gauss, MonthDays, Leap;
    var m := (yday + 31) * 10 / 306;
    var d := yday - GaussMonth(m) + 1;
    hide GaussMonth;
    if yday >= 306 {
      DayNumberIsGauss(year + 1, m - 10, d);
    } else {
      DayNumberIsGauss(year, m + 2, d);
    }
  }

  method Gmtime(t: int) returns (tm: Tm)
    ensures ValidTm(tm) && 1970 <= tm.year <= 9999
    ensures Seconds(tm) == Clamp(t)
    ensures tm.wday == (4 + Clamp(t) / 86400) % 7
  {
    var t' := if t < 0 then 0 else t;
    var days: nat := t' / 86400;
    var sec := t' % 86400;
    if days > LAST_DAY {
      days := LAST_DAY;
      sec := 86399;
    }
    assert Clamp(t) == days * 86400 + sec;
    var wday := (4 + days) % 7;
    var hour := sec / 3600;
    sec := sec % 3600;
    var min := sec / 60;
    sec := sec % 60;
    hide DayNumber, MonthDays;
    var year, mon, mday := DateOfDay(days);
    tm := Tm(year, mon, mday, hour, min, sec, wday);
  }

  lemma {:induction false} GaussMonotone(y: nat, z: nat)
    requires y <= z
    ensures Gauss(y) <= Gauss(z)
  {
    if y < z {
      GaussMonotone(y, z - 1);
      GaussStep(z - 1);
    }
  }

  lemma YearRange(day: nat, year: nat, yday: nat)
    requires day <= LAST_DAY && day + 719468 == Gauss(year) + yday && yday < YearDays(year + 1)
    ensures if yday >= 306 then 1969 <= year <= 9998 else 1970 <= year <= 9999
  {
    if year < 1969 {
      GaussMonotone(year + 1, 1969);
      GaussStep(year);
    }
    if year > 9999 {
      GaussMonotone(10000, year);
    }
  }

  // ----- printing

  const WEEK := ["Sun", "Mon", "Tue", "Wed", "Thu", "Fri", "Sat"]
  const MONTHS := ["Jan", "Feb", "Mar", "Apr", "May", "Jun", "Jul", "Aug", "Sep", "Oct", "Nov", "Dec"]
  const WEEKDAYS := ["Sunday", "Monday", "Tuesday", "Wednesday", "Thursday", "Friday", "Saturday"]

  function DigitChar(d: nat): char
    requires d < 10
  {
    '0' + d as char
  }

  function Digits(n: nat): string {
    (if n < 10 then "" else Digits(n / 10)) + [DigitChar(n % 10)]
  }

  function Pad(s: string, width: nat, c: char): string
    decreases width - |s|
  {
    if |s| >= width then s else Pad([c] + s, width, c)
  }

  function ClockText(tm: Tm): string {
    Pad(Digits(tm.hour), 2, '0') + ":" + Pad(Digits(tm.min), 2, '0') + ":" + Pad(Digits(tm.sec), 2, '0')
  }

  /** IMF-fixdate, "%s, %02d %s %4d %02d:%02d:%02d GMT": the one form that is printed. */
  function HttpText(tm: Tm): string
    requires ValidTm(tm)
  {
    WEEK[tm.wday] + ", " + Pad(Digits(tm.mday), 2, '0') + " " + MONTHS[tm.mon - 1] + " " + Pad(Digits(tm.year), 4, ' ')
    + " " + ClockText(tm) + " GMT"
  }

  /** The obsolete form of RFC 850, with the last two digits of the year. */
  function Rfc850Text(tm: Tm): string
    requires ValidTm(tm)
  {
    WEEKDAYS[tm.wday] + ", " + Pad(Digits(tm.mday), 2, '0') + "-" + MONTHS[tm.mon - 1] + "-"
    + Pad(Digits(tm.year % 100), 2, '0') + " " + ClockText(tm) + " GMT"
  }

  /** The form of asctime. */
  function AsctimeText(tm: Tm): string
    requires ValidTm(tm)
  {
    WEEK[tm.wday] + " " + MONTHS[tm.mon - 1] + " " + Pad(Digits(tm.mday), 2, ' ') + " "
    + ClockText(tm) + " " + Digits(tm.year)
  }

  lemma TwoDigits(n: nat)
    requires n < 100
    ensures Pad(Digits(n), 2, '0') == [DigitChar(n / 10), DigitChar(n % 10)]
    ensures Pad(Digits(n), 2, ' ') == [if n < 10 then ' ' else DigitChar(n / 10), DigitChar(n % 10)]
  {
  }

  lemma FourDigits(n: nat)
    requires 1000 <= n <= 9999
    ensures Digits(n) == [DigitChar(n / 1000), DigitChar(n / 100 % 10), DigitChar(n / 10 % 10), DigitChar(n % 10)]
  {
    hide Digits;
    assert n / 10 / 10 == n / 100 && n / 100 / 10 == n / 1000;
    LastDigit(n);
    LastDigit(n / 10);
    LastDigit(n / 100);
    LastDigit(n / 1000);
  }

  lemma LastDigit(n: nat)
    ensures Digits(n) == (if n < 10 then "" else Digits(n / 10)) + [DigitChar(n % 10)]
    ensures n < 10 ==> Digits(n) == [DigitChar(n)]
  {
  }

  method HttpTime(t: int) returns (s: string, ghost tm: Tm)
    ensures ValidTm(tm) && 1970 <= tm.year <= 9999 && Seconds(tm) == Clamp(t)
    ensures tm.wday == (4 + Clamp(t) / 86400) % 7
    ensures s == HttpText(tm)
  {
    var r := Gmtime(t);
    tm := r;
    s := HttpText(r);
  }

  // ----- the texts that are read

  predicate Digit(c: char) {
    '0' <= c <= '9'
  }

  function Value(c: char): nat
    requires Digit(c)
  {
    c as int - '0' as int
  }

  /** The two characters at p are the number n. */
  predicate Two(s: string, p: nat, n: nat) {
    p + 2 <= |s| && Digit(s[p]) && Digit(s[p + 1]) && n == Value(s[p]) * 10 + Value(s[p + 1])
  }

  predicate Four(s: string, p: nat, n: nat) {
    p + 4 <= |s| && Digit(s[p]) && Digit(s[p + 1]) && Digit(s[p + 2]) && Digit(s[p + 3])
    && n == Value(s[p]) * 1000 + Value(s[p + 1]) * 100 + Value(s[p + 2]) * 10 + Value(s[p + 3])
  }

  /** Months are told apart by as few letters as possible; 0 is no month. */
  function MonthAt(s: string, p: nat): nat
    requires p + 3 <= |s|
  {
    match s[p]
    case 'J' => if s[p + 1] == 'a' then 1 else if s[p + 2] == 'n' then 6 else 7
    case 'F' => 2
    case 'M' => if s[p + 2] == 'r' then 3 else 5
    case 'A' => if s[p + 1] == 'p' then 4 else 8
    case 'S' => 9
    case 'O' => 10
    case 'N' => 11
    case 'D' => 12
    case _ => 0
  }

  predicate ClockAt(s: string, p: nat, tm: Tm) {
    p + 8 <= |s| && Two(s, p, tm.hour) && s[p + 2] == ':' && Two(s, p + 3, tm.min) && s[p + 5] == ':'
      && Two(s, p + 6, tm.sec)
  }

  predicate Rfc822At(s: string, p: nat, tm: Tm) {
    p + 20 <= |s| && Two(s, p, tm.mday) && s[p + 2] == ' ' && MonthAt(s, p + 3) == tm.mon && s[p + 6] == ' '
    && Four(s, p + 7, tm.year) && s[p + 11] == ' ' && ClockAt(s, p + 12, tm)
  }

  function FullYear(yy: nat): nat {
    yy + (if yy < 70 then 2000 else 1900)
  }

  predicate Rfc850At(s: string, p: nat, tm: Tm) {
    p + 18 <= |s| && Two(s, p, tm.mday) && s[p + 2] == '-' && MonthAt(s, p + 3) == tm.mon && s[p + 6] == '-'
    && Two(s, p + 7, tm.year % 100) && tm.year == FullYear(tm.year % 100) && s[p + 9] == ' ' && ClockAt(s, p + 10, tm)
  }

  /** The day of an asctime text: an optional blank, then one or two digits. q is the character after it. */
  predicate AsctimeDay(s: string, p: nat, d: nat, q: nat)
    requires p + 4 <= |s|
  {
    var r := if s[p] == ' ' then p + 1 else p;
    Digit(s[r])
    && if s[r + 1] == ' ' then d == Value(s[r]) && q == r + 1 else Two(s, r, d) && q == r + 2
  }

  predicate AsctimeAt(s: string, p: nat, tm: Tm, q: nat) {
    p + 18 <= |s| && MonthAt(s, p) == tm.mon && AsctimeDay(s, p + 4, tm.mday, q) && q + 14 <= |s|
    && s[q] == ' ' && ClockAt(s, q + 1, tm) && s[q + 9] == ' ' && Four(s, q + 10, tm.year)
  }

  /** The first comma or blank. */
  function Stop(s: string, i: nat): (r: nat)
    requires i <= |s|
    ensures i <= r <= |s|
    decreases |s| - i
  {
    if i < |s| && s[i] != ',' && s[i] != ' ' then Stop(s, i + 1) else i
  }

  function Skip(s: string, i: nat): (r: nat)
    ensures r >= i
    decreases |s| - i
  {
    if i < |s| && s[i] == ' ' then Skip(s, i + 1) else i
  }

  ghost predicate IsAsctime(s: string) {
    Stop(s, 0) < |s| && s[Stop(s, 0)] == ' '
  }

  /** The fields tm are written in s in one of the three forms. */
  ghost predicate Written(s: string, tm: Tm) {
    var p := Skip(s, Stop(s, 0) + 1);
    tm.wday == 0
    && if IsAsctime(s) then exists q :: AsctimeAt(s, p, tm, q) else Rfc822At(s, p, tm) || Rfc850At(s, p, tm)
  }

  /** Day 0 passes: only the upper end of the day is tested. */
  predicate InRange(tm: Tm) {
    1 <= tm.mon <= 12 && tm.mday <= MonthDays(tm.year, tm.mon) && tm.hour < 24 && tm.min < 60 && tm.sec < 60
  }

  datatype Format = No | Isoc

  /** Where the date starts: behind the first comma or blank and the blanks that follow. */
  method FindDate(value: string) returns (fmt: Format, p: nat)
    ensures fmt == if IsAsctime(value) then Isoc else No
    ensures p == Skip(value, Stop(value, 0) + 1)
  {
    fmt := No;
    p := 0;
    while p < |value|
      invariant p <= |value| && fmt == No && Stop(value, 0) == Stop(value, p)
    {
      if value[p] == ',' {
        break;
      }
      if value[p] == ' ' {
        fmt := Isoc;
        break;
      }
      p := p + 1;
    }
    p := p + 1;
    while p < |value|
      invariant Skip(value, p) == Skip(value, Stop(value, 0) + 1)
    {
      if value[p] != ' ' {
        break;
      }
      p := p + 1;
    }
  }

  method ReadTwo(value: string, p: nat) returns (ok: bool, n: nat)
    requires p + 2 <= |value|
    ensures n < 100
    ensures if ok then Two(value, p, n) else forall m :: !Two(value, p, m)
  {
    if value[p] < '0' || value[p] > '9' || value[p + 1] < '0' || value[p + 1] > '9' {
      return false, 0;
    }
    return true, (value[p] - '0') as int * 10 + (value[p + 1] - '0') as int;
  }

  method ReadFour(value: string, p: nat) returns (ok: bool, n: nat)
    requires p + 4 <= |value|
    ensures n < 10000
    ensures if ok then Four(value, p, n) else forall m :: !Four(value, p, m)
  {
    if value[p] < '0' || value[p] > '9' || value[p + 1] < '0' || value[p + 1] > '9'
       || value[p + 2] < '0' || value[p + 2] > '9' || value[p + 3] < '0' || value[p + 3] > '9'
    {
      return false, 0;
    }
    return true, (value[p] - '0') as int * 1000 + (value[p + 1] - '0') as int * 100
                 + (value[p + 2] - '0') as int * 10 + (value[p + 3] - '0') as int;
  }

  method ReadClock(value: string, p: nat) returns (ok: bool, hour: nat, min: nat, sec: nat)
    requires p + 8 <= |value|
    ensures ok ==> forall tm: Tm :: ClockAt(value, p, tm) <==> tm.hour == hour && tm.min == min && tm.sec == sec
    ensures !ok ==> forall tm :: !ClockAt(value, p, tm)
  {
    hour, min, sec := 0, 0, 0;
    ok, hour := ReadTwo(value, p);
    if !ok || value[p + 2] != ':' {
      return false, 0, 0, 0;
    }
    ok, min := ReadTwo(value, p + 3);
    if !ok || value[p + 5] != ':' {
      return false, 0, 0, 0;
    }
    ok, sec := ReadTwo(value, p + 6);
  }

  /** The day of the month of an asctime text. */
  method ReadDay(value: string, start: nat) returns (ok: bool, day: nat, p: nat)
    requires start + 4 <= |value|
    ensures p <= start + 3
    ensures if ok then AsctimeDay(value, start, day, p) else forall d, q :: !AsctimeDay(value, start, d, q)
  {
    p := start;
    if value[p] == ' ' {
      p := p + 1;
    }
    if value[p] < '0' || value[p] > '9' {
      return false, 0, p;
    }
    day := (value[p] - '0') as int;
    p := p + 1;
    if value[p] != ' ' {
      if value[p] < '0' || value[p] > '9' {
        return false, 0, p;
      }
      day := day * 10 + (value[p] - '0') as int;
      p := p + 1;
    }
    ok := true;
  }

  method ReadMonth(value: string, p: nat) returns (ok: bool, month: nat)
    requires p + 3 <= |value|
    ensures ok <==> MonthAt(value, p) != 0
    ensures ok ==> MonthAt(value, p) == month + 1 && month < 12
  {
    ok, month := true, 0;
    match value[p] {
      case 'J' => month := if value[p + 1] == 'a' then 0 else if value[p + 2] == 'n' then 5 else 6;
      case 'F' => month := 1;
      case 'M' => month := if value[p + 2] == 'r' then 2 else 4;
      case 'A' => month := if value[p + 1] == 'p' then 3 else 7;
      case 'S' => month := 8;
      case 'O' => month := 9;
      case 'N' => month := 10;
      case 'D' => month := 11;
      case _ => ok := false;
    }
  }

  /** The two forms that start with the day. */
  method ReadRfc(value: string, start: nat) returns (ok: bool, tm: Tm)
    requires start + 18 <= |value|
    ensures tm.wday == 0 && tm.year < 10000
    ensures ok ==> (Rfc822At(value, start, tm) || Rfc850At(value, start, tm)) && 1 <= tm.mon <= 12
    ensures !ok ==> forall other | Rfc822At(value, start, other) || Rfc850At(value, start, other) :: other.mon == 0
  {
    hide MonthAt, Value;
    tm := Tm(0, 0, 0, 0, 0, 0, 0);
    var p, day, month, year, hour, min, sec := start, 0, 0, 0, 0, 0, 0;
    ok, day := ReadTwo(value, p);
    if !ok {
      return;
    }
    p := p + 2;
    var rfc850 := false;
    if value[p] == ' ' {
      if |value| - p < 18 {
        return false, tm;
      }
    } else if value[p] == '-' {
      rfc850 := true;
    } else {
      return false, tm;
    }
    p := p + 1;
    ok, month := ReadMonth(value, p);
    if !ok {
      return;
    }
    p := p + 3;
    if value[p] != (if rfc850 then '-' else ' ') {
      return false, tm;
    }
    p := p + 1;
    if rfc850 {
      ok, year := ReadTwo(value, p);
      if !ok {
        return;
      }
      year := year + (if year < 70 then 2000 else 1900);
      p := p + 2;
    } else {
      ok, year := ReadFour(value, p);
      if !ok {
        return;
      }
      p := p + 4;
    }
    if value[p] != ' ' {
      return false, tm;
    }
    ok, hour, min, sec := ReadClock(value, p + 1);
    if !ok {
      return;
    }
    hide Digit;
    tm := Tm(year, month + 1, day, hour, min, sec, 0);
    assert ClockAt(value, p + 1, tm);
  }

  method ReadAsctime(value: string, start: nat) returns (ok: bool, tm: Tm)
    requires start + 18 <= |value|
    ensures tm.wday == 0 && tm.year < 10000
    ensures ok ==> (exists q :: AsctimeAt(value, start, tm, q)) && 1 <= tm.mon <= 12
    ensures !ok ==> forall other, q | AsctimeAt(value, start, other, q) :: other.mon == 0
  {
    hide MonthAt, Value;
    tm := Tm(0, 0, 0, 0, 0, 0, 0);
    var p, day, month, year, hour, min, sec := start, 0, 0, 0, 0, 0, 0;
    ok, month := ReadMonth(value, p);
    if !ok {
      return;
    }
    ok, day, p := ReadDay(value, p + 4);
    if !ok {
      return;
    }
    if |value| - p < 14 || value[p] != ' ' {
      return false, tm;
    }
    ok, hour, min, sec := ReadClock(value, p + 1);
    if !ok {
      return;
    }
    if value[p + 9] != ' ' {
      return false, tm;
    }
    ok, year := ReadFour(value, p + 10);
    if !ok {
      return;
    }
    tm := Tm(year, month + 1, day, hour, min, sec, 0);
    assert ClockAt(value, p + 1, tm);
    assert AsctimeAt(value, start, tm, p);
  }

  /** The cursor part of ngx_parse_http_time: every character read is inside the value. */
  method ReadFields(value: string) returns (ok: bool, tm: Tm)
    ensures ok ==> Written(value, tm) && 1 <= tm.mon <= 12 && tm.year < 10000
    ensures !ok ==> forall other | Written(value, other) :: other.mon == 0
  {
    var fmt, p := FindDate(value);
    if |value| - p < 18 {
      return false, Tm(0, 0, 0, 0, 0, 0, 0);
    }
    if fmt == Isoc {
      ok, tm := ReadAsctime(value, p);
    } else {
      ok, tm := ReadRfc(value, p);
    }
  }

  // ----- the time that is returned

  const TWO64 := 0x1_0000_0000_0000_0000

  /** `year -= 1` goes below zero in the unsigned year. */
  predicate YearWraps(tm: Tm) {
    tm.year == 0 && tm.mon <= 2
  }

  /** A 64-bit unsigned value taken as a signed one. */
  function Signed(x: int): int {
    var w := x % TWO64;
    if w > 0x7fff_ffff_ffff_ffff then w - TWO64 else w
  }

  lemma SignedFits(x: int)
    requires -0x1_0000_0000_0000 <= x <= 0x1_0000_0000_0000
    ensures Signed(x) == x
  {
  }

  /** The time from the numbers of Gauss' formula. */
  function GaussTime(year: nat, month: nat, tm: Tm): int {
    (Gauss(year) + GaussMonth(month) + tm.mday - 1 - 719527 + 31 + 28) * 86400 + tm.hour * 3600 + tm.min * 60 + tm.sec
  }

  lemma WrapMisses(tm: Tm)
    requires InRange(tm) && YearWraps(tm)
    ensures Signed(GaussTime(TWO64 - 1, tm.mon + 10, tm)) != Seconds(tm)
  {
    MonthClosedForm(0, tm.mon);
    assert tm.mday <= 31;
    hide InRange, DaysBeforeMonth;
    assert DayNumber(0, tm.mon, tm.mday) == GaussMonth(tm.mon + 10) - 306 + tm.mday - 1 - EPOCH;
    hide DayNumber;
    var rest := tm.mday * 86400 + tm.hour * 3600 + tm.min * 60 + tm.sec;
    assert GaussMonth(11) == 306 && GaussMonth(12) == 337;
    hide GaussMonth;
    assert Gauss(TWO64 - 1) == 365 * (TWO64 - 1) + 0x3fff_ffff_ffff_ffff - 184467440737095516 + 46116860184273879;
  }

  lemma GaussHolds(tm: Tm)
    requires InRange(tm) && tm.year < 10000 && !YearWraps(tm)
    ensures var early := tm.mon <= 2; var month := if early then tm.mon + 10 else tm.mon - 2;
      var year := if early then tm.year - 1 else tm.year;
      Signed(GaussTime(year, month, tm)) == GaussTime(year, month, tm) == Seconds(tm)
  {
    DayNumberIsGauss(tm.year, tm.mon, tm.mday);
    assert tm.mday <= 31;
    var year := if tm.mon <= 2 then tm.year - 1 else tm.year;
    GaussTimes400(year);
    hide Gauss, MonthDays, DayNumber;
    SignedFits(GaussTime(year, if tm.mon <= 2 then tm.mon + 10 else tm.mon - 2, tm));
  }

  /** What an unsigned operation of 64 bits leaves of its result. */
  function U64(x: int): int {
    x % TWO64
  }

  lemma U64Sum(x: int, y: int)
    ensures U64(U64(x) + y) == U64(x + y) && U64(U64(x) + U64(y)) == U64(x + y)
  {
  }

  lemma U64Scaled(x: int)
    ensures U64(U64(x) * 86400) == U64(x * 86400)
  {
    var q, r := x / TWO64, x % TWO64;
    assert x * 86400 == r * 86400 + q * 86400 * TWO64;
    U64Multiple(r * 86400, q * 86400);
  }

  lemma U64Multiple(x: int, k: int)
    ensures U64(x + k * TWO64) == U64(x)
  {
    var q, r := x / TWO64, x % TWO64;
    assert x + k * TWO64 == (q + k) * TWO64 + r;
  }

  /** The days by Gauss' formula, with an unsigned year of 64 bits: every sum, difference and product wraps. */
  method FormulaTime(year: nat, month: nat, tm: Tm) returns (time: int)
    ensures time == Signed(GaussTime(year, month, tm))
  {
    hide U64, Signed;
    var days := U64(365 * year);
    days := U64(days + year / 4);
    U64Sum(365 * year, year / 4);
    days := U64(days - year / 100);
    U64Sum(365 * year + year / 4, -(year / 100));
    days := U64(days + year / 400);
    ghost var sum := Gauss(year);
    U64Sum(sum - year / 400, year / 400);
    days := U64(days + 367 * month / 12);
    U64Sum(sum, 367 * month / 12);
    days := U64(days - 30);
    sum := sum + GaussMonth(month);
    U64Sum(sum + 30, -30);
    days := U64(days + tm.mday);
    U64Sum(sum, tm.mday);
    days := U64(days - 1);
    U64Sum(sum + tm.mday, -1);
    days := U64(days - 719527);
    sum := sum + tm.mday - 1;
    U64Sum(sum, -719527);
    days := U64(days + 31);
    U64Sum(sum - 719527, 31);
    days := U64(days + 28);
    sum := sum - 719527 + 31;
    U64Sum(sum, 28);
    sum := sum + 28;
    U64Scaled(sum);
    time := AddClock(U64(days * 86400), sum * 86400, tm);
    time := AsSigned(time, GaussTime(year, month, tm));
  }

  method AddClock(days: int, ghost sum: int, tm: Tm) returns (time: int)
    requires days == U64(sum)
    ensures time == U64(sum + tm.hour * 3600 + tm.min * 60 + tm.sec)
  {
    hide U64;
    time := U64(days + U64(tm.hour * 3600));
    U64Sum(sum, tm.hour * 3600);
    time := U64(time + U64(tm.min * 60));
    U64Sum(sum + tm.hour * 3600, tm.min * 60);
    time := U64(time + tm.sec);
    U64Sum(sum + tm.hour * 3600 + tm.min * 60, tm.sec);
  }

  /** The unsigned time read as a signed one. */
  method AsSigned(time: int, ghost x: int) returns (t: int)
    requires time == U64(x)
    ensures t == Signed(x)
  {
    t := time;
    if t > 0x7fff_ffff_ffff_ffff {
      t := t - TWO64;
    }
  }

  method DateSeconds(tm: Tm) returns (time: int)
    requires InRange(tm) && tm.year < 10000
    ensures time == Seconds(tm) <==> !YearWraps(tm)
  {
    hide GaussTime, Signed, Seconds, MonthDays;
    var month: int, year: nat := tm.mon - 1, tm.year;
    month := month - 1;
    if month <= 0 {
      month := month + 12;
      year := (year - 1) % TWO64;
    }
    time := FormulaTime(year, month, tm);
    if YearWraps(tm) {
      WrapMisses(tm);
    } else {
      GaussHolds(tm);
    }
  }

  method ParseHttpTime(value: string) returns (ok: bool, time: int, ghost tm: Tm)
    ensures ok ==> Written(value, tm) && InRange(tm) && (time == Seconds(tm) <==> !YearWraps(tm))
    ensures !ok ==> time == -1 && forall other | Written(value, other) :: !InRange(other)
  {
    hide Written;
    var read;
    ok, read := ReadFields(value);
    tm := read;
    if !ok {
      return false, -1, tm;
    }
    forall other | Written(value, other)
      ensures other == read
    {
      WrittenOnce(value, other, read);
    }
    if read.hour > 23 || read.min > 59 || read.sec > 59 {
      return false, -1, tm;
    }
    if read.mday == 29 && read.mon == 2 {
      if read.year % 4 != 0 || (read.year % 100 == 0 && read.year % 400 != 0) {
        return false, -1, tm;
      }
    } else if read.mday > [31, 28, 31, 30, 31, 30, 31, 31, 30, 31, 30, 31][read.mon - 1] {
      return false, -1, tm;
    }
    time := DateSeconds(read);
  }

  // ----- what is printed is read back

  lemma AsctimeOnce(s: string, p: nat, a: Tm, q: nat, b: Tm, r: nat)
    requires AsctimeAt(s, p, a, q) && AsctimeAt(s, p, b, r) && a.wday == b.wday
    ensures a == b
  {
    hide MonthAt, Value, Digit;
  }

  lemma WrittenOnce(s: string, a: Tm, b: Tm)
    requires Written(s, a) && Written(s, b)
    ensures a == b
  {
    hide Skip, Stop, MonthAt, Value, Digit;
    var p := Skip(s, Stop(s, 0) + 1);
    if IsAsctime(s) {
      var q :| AsctimeAt(s, p, a, q);
      var r :| AsctimeAt(s, p, b, r);
      AsctimeOnce(s, p, a, q, b, r);
    }
  }

  lemma TwoReads(s: string, p: nat, n: nat)
    requires n < 100 && p + 2 <= |s| && s[p..p + 2] == Pad(Digits(n), 2, '0')
    ensures Two(s, p, n)
  {
    TwoDigits(n);
    assert s[p] == s[p..p + 2][0] && s[p + 1] == s[p..p + 2][1];
  }

  lemma FourReads(s: string, p: nat, n: nat)
    requires 1000 <= n <= 9999 && p + 4 <= |s| && s[p..p + 4] == Digits(n)
    ensures Four(s, p, n)
  {
    FourDigits(n);
    hide Digits;
    assert s[p] == s[p..p + 4][0] && s[p + 1] == s[p..p + 4][1];
    assert s[p + 2] == s[p..p + 4][2] && s[p + 3] == s[p..p + 4][3];
    FourOf(n);
  }

  lemma FourOf(n: nat)
    ensures n == n / 1000 * 1000 + n / 100 % 10 * 100 + n / 10 % 10 * 10 + n % 10
  {
    assert n / 10 / 10 == n / 100 && n / 100 / 10 == n / 1000;
  }

  lemma MonthReads(s: string, p: nat, m: nat)
    requires 1 <= m <= 12 && p + 3 <= |s| && s[p..p + 3] == MONTHS[m - 1]
    ensures MonthAt(s, p) == m
  {
    assert s[p] == s[p..p + 3][0] && s[p + 1] == s[p..p + 3][1] && s[p + 2] == s[p..p + 3][2];
  }

  lemma ClockReads(s: string, p: nat, tm: Tm)
    requires ValidTm(tm) && p + 8 <= |s| && s[p..p + 8] == ClockText(tm)
    ensures ClockAt(s, p, tm.(wday := 0))
  {
    var c := s[p..p + 8];
    TwoDigits(tm.hour);
    TwoDigits(tm.min);
    TwoDigits(tm.sec);
    assert c[2] == ':' && c[5] == ':';
    assert s[p..p + 2] == c[..2] && s[p + 3..p + 5] == c[3..5] && s[p + 6..p + 8] == c[6..];
    TwoReads(s, p, tm.hour);
    TwoReads(s, p + 3, tm.min);
    TwoReads(s, p + 6, tm.sec);
  }

  lemma ClockLength(tm: Tm)
    requires ValidTm(tm)
    ensures |ClockText(tm)| == 8
  {
    TwoDigits(tm.hour);
    TwoDigits(tm.min);
    TwoDigits(tm.sec);
  }

  lemma {:induction false} NoStop(s: string, i: nat, k: nat)
    requires i <= k < |s| && (s[k] == ',' || s[k] == ' ')
    requires forall j | i <= j < k :: s[j] != ',' && s[j] != ' '
    ensures Stop(s, i) == k
    decreases k - i
  {
    if i < k {
      NoStop(s, i + 1, k);
    }
  }

  /** Where the date starts when the first word ends at k. */
  lemma WordEnds(s: string, k: nat)
    requires k + 2 < |s| && forall j | 0 <= j < k :: s[j] != ',' && s[j] != ' '
    requires if s[k] == ',' then s[k + 1] == ' ' && s[k + 2] != ' ' else s[k] == ' ' && s[k + 1] != ' '
    ensures Stop(s, 0) == k && Skip(s, k + 1) == if s[k] == ',' then k + 2 else k + 1
  {
    NoStop(s, 0, k);
  }

  lemma WordHasNoStop(i: nat)
    requires i < 7
    ensures forall j | 0 <= j < |WEEK[i]| :: WEEK[i][j] != ',' && WEEK[i][j] != ' '
    ensures forall j | 0 <= j < |WEEKDAYS[i]| :: WEEKDAYS[i][j] != ',' && WEEKDAYS[i][j] != ' '
    ensures |WEEK[i]| == 3
  {
  }

  /** Where the pieces of the two forms with a comma are. */
  lemma CommaPieces(w: string, d: string, x: string, m: string, y: string, c: string)
    requires |d| == 2 && |x| == 1 && |m| == 3 && |c| == 8
    ensures var s := w + ", " + d + x + m + x + y + " " + c + " GMT"; var n, k := |w|, |w| + |y|;
      && |s| == k + 22 && s[..n] == w && s[n] == ',' && s[n + 1] == ' ' && s[n + 2..n + 4] == d && s[n + 4] == x[0]
      && s[n + 5..n + 8] == m && s[n + 8] == x[0] && s[n + 9..k + 9] == y && s[k + 9] == ' ' && s[k + 10..k + 18] == c
  {
  }

  lemma HttpFields(tm: Tm)
    requires ValidTm(tm) && 1000 <= tm.year <= 9999
    ensures var s := HttpText(tm);
      && |s| == 29 && s[..3] == WEEK[tm.wday] && s[3] == ',' && s[4] == ' '
      && Rfc822At(s, 5, tm.(wday := 0))
  {
    var day, month, year, clock := Pad(Digits(tm.mday), 2, '0'), MONTHS[tm.mon - 1], Digits(tm.year), ClockText(tm);
    var s := HttpText(tm);
    TwoDigits(tm.mday);
    FourDigits(tm.year);
    ClockLength(tm);
    WordHasNoStop(tm.wday);
    CommaPieces(WEEK[tm.wday], day, " ", month, year, clock);
    hide Digits, ClockText, MonthAt, Two, Four, ClockAt;
    TwoReads(s, 5, tm.mday);
    MonthReads(s, 8, tm.mon);
    FourReads(s, 12, tm.year);
    ClockReads(s, 17, tm);
  }

  lemma HttpWritten(tm: Tm)
    requires ValidTm(tm) && 1000 <= tm.year <= 9999
    ensures Written(HttpText(tm), tm.(wday := 0))
  {
    var s := HttpText(tm);
    HttpFields(tm);
    WordHasNoStop(tm.wday);
    hide HttpText, Stop, Skip, MonthAt, Two, Four, ClockAt;
    assert forall j | 0 <= j < 3 :: s[j] == s[..3][j];
    assert s[5] != ' ' by { assert Two(s, 5, tm.mday); TwoIsDigits(s, 5, tm.mday); }
    WordEnds(s, 3);
  }

  lemma TwoIsDigits(s: string, p: nat, n: nat)
    requires Two(s, p, n)
    ensures p + 2 <= |s| && s[p] != ' '
  {
  }

  lemma Rfc850Fields(tm: Tm)
    requires ValidTm(tm) && 1970 <= tm.year <= 2069
    ensures var s, n := Rfc850Text(tm), |WEEKDAYS[tm.wday]|;
      |s| == n + 24 && s[..n] == WEEKDAYS[tm.wday] && s[n] == ',' && s[n + 1] == ' '
        && Rfc850At(s, n + 2, tm.(wday := 0))
  {
    hide Pad, Digits, ClockText, MonthAt, Two, Four, ClockAt;
    var day, month, year, clock :=
      Pad(Digits(tm.mday), 2, '0'), MONTHS[tm.mon - 1], Pad(Digits(tm.year % 100), 2, '0'), ClockText(tm);
    var s, n := Rfc850Text(tm), |WEEKDAYS[tm.wday]|;
    TwoDigits(tm.mday);
    TwoDigits(tm.year % 100);
    ClockLength(tm);
    CommaPieces(WEEKDAYS[tm.wday], day, "-", month, year, clock);
    hide Rfc850Text;
    assert tm.year == FullYear(tm.year % 100);
    Rfc850Reads(s, n + 2, tm);
  }

  lemma Rfc850Reads(s: string, p: nat, tm: Tm)
    requires ValidTm(tm) && 1970 <= tm.year <= 2069 && p + 18 <= |s|
    requires s[p..p + 2] == Pad(Digits(tm.mday), 2, '0') && s[p + 2] == '-'
    requires s[p + 3..p + 6] == MONTHS[tm.mon - 1] && s[p + 6] == '-'
    requires s[p + 7..p + 9] == Pad(Digits(tm.year % 100), 2, '0') && s[p + 9] == ' '
    requires s[p + 10..p + 18] == ClockText(tm)
    ensures Rfc850At(s, p, tm.(wday := 0))
  {
    hide Pad, Digits, ClockText, MonthAt, Two, Four, ClockAt;
    TwoReads(s, p, tm.mday);
    MonthReads(s, p + 3, tm.mon);
    TwoReads(s, p + 7, tm.year % 100);
    ClockReads(s, p + 10, tm);
  }

  lemma Rfc850Written(tm: Tm)
    requires ValidTm(tm) && 1970 <= tm.year <= 2069
    ensures Written(Rfc850Text(tm), tm.(wday := 0))
  {
    var s, n := Rfc850Text(tm), |WEEKDAYS[tm.wday]|;
    Rfc850Fields(tm);
    WordHasNoStop(tm.wday);
    hide Rfc850Text, Stop, Skip, MonthAt, Two, Four, ClockAt;
    assert forall j | 0 <= j < n :: s[j] == s[..n][j];
    assert s[n + 2] != ' ' by { assert Two(s, n + 2, tm.mday); TwoIsDigits(s, n + 2, tm.mday); }
    WordEnds(s, n);
  }

  lemma AsctimePieces(w: string, m: string, d: string, c: string, y: string)
    requires |w| == 3 && |d| == 2 && |m| == 3 && |c| == 8 && |y| == 4
    ensures var s := w + " " + m + " " + d + " " + c + " " + y;
      && |s| == 24 && s[..3] == w && s[3] == ' ' && s[4..7] == m && s[7] == ' ' && s[8..10] == d && s[10] == ' '
      && s[11..19] == c && s[19] == ' ' && s[20..24] == y
  {
  }

  lemma AsctimeFields(tm: Tm)
    requires ValidTm(tm) && 1000 <= tm.year <= 9999
    ensures var s := AsctimeText(tm);
      && |s| == 24 && s[..3] == WEEK[tm.wday] && s[3] == ' ' && s[4] != ' '
      && AsctimeAt(s, 4, tm.(wday := 0), 10)
  {
    var day, month, year, clock := Pad(Digits(tm.mday), 2, ' '), MONTHS[tm.mon - 1], Digits(tm.year), ClockText(tm);
    var s := AsctimeText(tm);
    TwoDigits(tm.mday);
    FourDigits(tm.year);
    ClockLength(tm);
    WordHasNoStop(tm.wday);
    AsctimePieces(WEEK[tm.wday], month, day, clock, year);
    hide Digits, ClockText, MonthAt, Four, ClockAt, Pad, AsctimeText;
    assert s[4] == s[4..7][0];
    MonthReads(s, 4, tm.mon);
    FourReads(s, 20, tm.year);
    ClockReads(s, 11, tm);
    DayReads(s, 8, tm.mday);
  }

  lemma DayReads(s: string, p: nat, d: nat)
    requires 1 <= d <= 31 && p + 4 <= |s| && s[p..p + 2] == Pad(Digits(d), 2, ' ') && s[p + 2] == ' '
    ensures AsctimeDay(s, p, d, p + 2)
  {
    TwoDigits(d);
    assert s[p] == s[p..p + 2][0] && s[p + 1] == s[p..p + 2][1];
  }

  lemma AsctimeWritten(tm: Tm)
    requires ValidTm(tm) && 1000 <= tm.year <= 9999
    ensures Written(AsctimeText(tm), tm.(wday := 0))
  {
    var s := AsctimeText(tm);
    AsctimeFields(tm);
    WordHasNoStop(tm.wday);
    hide AsctimeText, Stop, Skip, MonthAt, Two, Four, ClockAt;
    assert forall j | 0 <= j < 3 :: s[j] == s[..3][j];
    WordEnds(s, 3);
    hide AsctimeAt;
    assert AsctimeAt(s, Skip(s, Stop(s, 0) + 1), tm.(wday := 0), 10);
  }

  /** Printing a time and reading the text gives the time back, up to the cut at both ends. */
  method RoundTrip(t: int) returns (ok: bool, time: int)
    ensures ok && time == Clamp(t)
    ensures 0 <= t <= 253402300799 ==> time == t
  {
    hide Written, HttpText, DayNumber;
    var s;
    ghost var tm, read;
    s, tm := HttpTime(t);
    ok, time, read := ParseHttpTime(s);
    HttpWritten(tm);
    if ok {
      WrittenOnce(s, read, tm.(wday := 0));
    }
  }

  /** Day 0 of a month is accepted and read as the last day of the month before. */
  lemma DayZero(y: nat, m: nat)
    requires 1 <= m <= 12 && (m == 1 ==> y >= 1)
    ensures InRange(Tm(y, m, 0, 0, 0, 0, 0)) && !ValidDate(y, m, 0)
    ensures DayNumber(y, m, 0) == if m == 1 then DayNumber(y - 1, 12, 31) else DayNumber(y, m - 1, MonthDays(y, m - 1))
  {
    if m == 1 {
      MonthClosedForm(y - 1, 12);
    }
  }
}
