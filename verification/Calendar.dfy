/** Calendar arithmetic of Equinox/libraries/RTClib/rtc.cpp against counting day by day. */
module Calendar {
  import opened Bytes

  // ---- the reference: the Gregorian calendar, one day after the other

  datatype Date = Date(y: nat, m: nat, d: nat)

  predicate Leap(y: nat) {
    y % 4 == 0 && (y % 100 != 0 || y % 400 == 0)
  }

  /** `daysInMonth`, the table of a common year. */
  function DaysInMonth(m: nat): byte
    requires 1 <= m <= 12
  {
    if m == 2 then 28 else if m == 4 || m == 6 || m == 9 || m == 11 then 30 else 31
  }

  function MonthLength(y: nat, m: nat): nat
    requires 1 <= m <= 12
  {
    if m == 2 && Leap(y) then 29 else DaysInMonth(m)
  }

  predicate Exists(a: Date) {
    a.y >= 2000 && 1 <= a.m <= 12 && 1 <= a.d <= MonthLength(a.y, a.m)
  }

  function Next(a: Date): (b: Date)
    requires Exists(a)
    ensures Exists(b)
  {
    if a.d < MonthLength(a.y, a.m) then Date(a.y, a.m, a.d + 1)
    else if a.m < 12 then Date(a.y, a.m + 1, 1)
    else Date(a.y + 1, 1, 1)
  }

  /** The date `n` days after 1 January 2000. */
  function Nth(n: nat): (a: Date)
    ensures Exists(a)
  {
    if n == 0 then Date(2000, 1, 1) else Next(Nth(n - 1))
  }

  function Previous(a: Date): (b: Date)
    requires Exists(a) && a != Date(2000, 1, 1)
    ensures Exists(b) && Next(b) == a
  {
    if a.d > 1 then Date(a.y, a.m, a.d - 1)
    else if a.m > 1 then Date(a.y, a.m - 1, MonthLength(a.y, a.m - 1))
    else Date(a.y - 1, 12, 31)
  }

  // ---- days_from_2000

  /** Days of a common year before month `m`. */
  function MonthStart(m: nat): (n: nat)
    requires 1 <= m <= 12
    ensures n <= 31 * (m - 1)
  {
    if m == 1 then 0 else MonthStart(m - 1) + DaysInMonth(m - 1)
  }

  /** The closed form, for a year counted from 2000. */
  function Closed(y: nat, m: nat, d: nat): int
    requires 1 <= m <= 12
  {
    d + MonthStart(m) + (if m > 2 && y % 4 == 0 then 1 else 0) + 365 * y + (y + 3) / 4 - 1
  }

  function Offset(y: nat): nat {
    if y >= 2000 then y - 2000 else y
  }

  function Days(y: nat, m: nat, d: nat): u16
    requires 1 <= m <= 12
  {
    Closed(Offset(y), m, d) % 0x1_0000
  }

  method DaysFrom2000(year: u16, m: byte, d: byte) returns (r: u16)
    requires 1 <= m <= 12
    ensures r == Days(year, m, d)
  {
    var y: u16 := if year >= 2000 then year - 2000 else year;
    var days: nat := d;
    var i: nat := 1;
    while i < m
      invariant 1 <= i <= m && days == d + MonthStart(i)
    {
      days := days + DaysInMonth(i);
      i := i + 1;
    }
    if m > 2 && y % 4 == 0 {
      days := days + 1;
    }
    r := (days + 365 * (y as int) + (y as int + 3) / 4 - 1) % 0x1_0000;
  }

  /** Dates before the first leap day the closed form invents. */
  predicate Early(a: Date) {
    a.y < 2100 || (a.y == 2100 && a.m <= 2)
  }

  function ClosedAt(a: Date): int
    requires Exists(a)
  {
    Closed(a.y - 2000, a.m, a.d)
  }

  predicate Invented(a: Date)
    requires Exists(a)
  {
    a.m == 2 && a.d == 28 && a.y % 4 == 0 && !Leap(a.y)
  }

  lemma MonthEnds(y: nat, m: nat)
    requires 1 <= m < 12
    ensures Closed(y, m + 1, 1) == Closed(y, m, DaysInMonth(m)) + 1 + if m == 2 && y % 4 == 0 then 1 else 0
  {
  }

  lemma YearEnds(y: nat)
    ensures Closed(y + 1, 1, 1) == Closed(y, 12, 31) + 1
  {
    assert MonthStart(12) == 334 by { Starts(); }
    var q, r := y / 4, y % 4;
    assert y == 4 * q + r;
    assert (y + 3) / 4 == q + (r + 3) / 4;
    assert (y + 4) / 4 == q + 1;
  }

  lemma Starts()
    ensures MonthStart(2) == 31 && MonthStart(3) == 59 && MonthStart(4) == 90 && MonthStart(10) == 273
            && MonthStart(12) == 334
  {
    assert MonthStart(4) == 90;
    assert MonthStart(7) == 181;
    assert MonthStart(10) == 273;
  }

  lemma SameLeap(y: nat)
    requires y >= 2000
    ensures (y - 2000) % 4 == y % 4
    ensures y < 2100 ==> (Leap(y) <==> y % 4 == 0)
    ensures y == 2100 ==> !Leap(y) && y % 4 == 0
  {
    if y < 2100 && y % 4 == 0 && y % 100 == 0 {
      assert y == 2000;
    }
  }

  /** One day adds one, and an invented leap day adds one more. */
  lemma DayStep(a: Date)
    requires Exists(a)
    ensures ClosedAt(Next(a)) == ClosedAt(a) + 1 + if Invented(a) then 1 else 0
  {
    if a.d < MonthLength(a.y, a.m) {
      ClosedDay(a.y - 2000, a.m, a.d);
    } else if a.m < 12 {
      MonthStep(a);
    } else {
      YearEnds(a.y - 2000);
    }
  }

  lemma ClosedDay(y: nat, m: nat, d: nat)
    requires 1 <= m <= 12
    ensures Closed(y, m, d + 1) == Closed(y, m, d) + 1
  {
  }

  lemma MonthStep(a: Date)
    requires Exists(a) && a.m < 12 && a.d == MonthLength(a.y, a.m)
    ensures Closed(a.y - 2000, a.m + 1, 1) == ClosedAt(a) + 1 + if Invented(a) then 1 else 0
  {
    SameLeap(a.y);
    MonthEnds(a.y - 2000, a.m);
  }

  /** What the closed form `c` is worth at the date `a`, `n` days on. */
  predicate CountIs(a: Date, c: int, n: nat) {
    && (Early(a) ==> c == n) && (!Early(a) ==> n < c)
    && c <= n + (a.y - 2000) + if a.m > 2 then 1 else 0
  }

  /** The closed form counts the days exactly until it invents a leap day, and from then
      on it is ahead, by less than one day for each year. */
  lemma {:induction false} ClosedCounts(n: nat)
    ensures CountIs(Nth(n), ClosedAt(Nth(n)), n)
  {
    if n > 0 {
      var a := Nth(n - 1);
      ClosedCounts(n - 1);
      DayStep(a);
      CountNext(a, ClosedAt(a), n - 1);
    }
  }

  lemma CountNext(a: Date, c: int, n: nat)
    requires Exists(a) && CountIs(a, c, n)
    ensures CountIs(Next(a), c + 1 + if Invented(a) then 1 else 0, n + 1)
  {
    SameLeap(a.y);
  }

  /** `days_from_2000` is the number of days since 1 January 2000 exactly for the dates
      before 1 March 2100, in sixteen bits. */
  lemma DaysExact(n: nat)
    requires Nth(n).y < 0x1_0000
    ensures var a := Nth(n); Days(a.y, a.m, a.d) as int == n <==> Early(a)
  {
    ClosedCounts(n);
    CountTells(Nth(n), n);
  }

  lemma CountTells(a: Date, n: nat)
    requires Exists(a) && a.y < 0x1_0000 && CountIs(a, ClosedAt(a), n)
    ensures Days(a.y, a.m, a.d) as int == n <==> Early(a)
  {
    var c := ClosedAt(a);
    if Early(a) {
      ClosedBound(a);
    }
    DaysCut(a, c);
    Truncated(c, n);
  }

  lemma DaysCut(a: Date, c: int)
    requires Exists(a) && c == ClosedAt(a)
    ensures Days(a.y, a.m, a.d) as int == c % 0x1_0000
  {
  }

  lemma Truncated(c: int, n: nat)
    requires 0 <= n <= c < n + 0x1_0000 && (c == n ==> c < 0x1_0000)
    ensures c % 0x1_0000 == n <==> c == n
  {
    assert c == 0x1_0000 * (c / 0x1_0000) + c % 0x1_0000;
  }

  lemma ClosedBound(a: Date)
    requires Exists(a) && Early(a)
    ensures 0 <= ClosedAt(a) < 0x1_0000
  {
  }

  /** The first failing date: 1 March 2100 follows 28 February, and the count skips a day. */
  lemma CenturyLeapDay()
    ensures Next(Date(2100, 2, 28)) == Date(2100, 3, 1)
    ensures Days(2100, 2, 28) == 36583 && Days(2100, 3, 1) == 36585
  {
    Starts();
    assert !Leap(2100);
  }

  /** Every date is met by the count, so the statement is about all dates. */
  lemma {:induction false} EveryDateCounted(a: Date) returns (n: nat)
    requires Exists(a)
    ensures Nth(n) == a
    decreases a.y, a.m, a.d
  {
    if a == Date(2000, 1, 1) {
      n := 0;
    } else {
      n := EveryDateCounted(Previous(a));
      n := n + 1;
    }
  }

  // ---- weekdays; a week starts on Monday, numbered 0

  const SATURDAY := 5
  const SUNDAY := 6

  function DayOfWeek(y: nat, m: nat, d: nat): nat
    requires 1 <= m <= 12
  {
    (Days(y, m, d) as int + 5) % 7
  }

  /** 1 January 2000 was a Saturday, and each day the weekday advances by one. */
  lemma WeekdaysAdvance(n: nat)
    requires Early(Nth(n + 1))
    ensures DayOfWeek(2000, 1, 1) == SATURDAY
    ensures var a, b := Nth(n), Nth(n + 1); DayOfWeek(b.y, b.m, b.d) == (DayOfWeek(a.y, a.m, a.d) + 1) % 7
  {
    assert Nth(0) == Date(2000, 1, 1);
    WeekdayOf(0);
    assert Nth(n + 1) == Next(Nth(n));
    WeekdayOf(n);
    WeekdayOf(n + 1);
    NextInWeek(n + 5);
  }

  lemma WeekdayOf(n: nat)
    requires Early(Nth(n))
    ensures var a := Nth(n); DayOfWeek(a.y, a.m, a.d) == (n + 5) % 7
  {
    var a := Nth(n);
    DaysExact(n);
    DayOfWeekIs(a.y, a.m, a.d, n);
  }

  lemma DayOfWeekIs(y: nat, m: nat, d: nat, n: nat)
    requires 1 <= m <= 12 && Days(y, m, d) as int == n
    ensures DayOfWeek(y, m, d) == (n + 5) % 7
  {
  }

  lemma NextInWeek(n: nat)
    ensures (n + 1) % 7 == (n % 7 + 1) % 7
  {
  }

  // ---- summer time

  function BeginDay(y: nat): int {
    31 - (5 * y / 4 + 4) % 7
  }

  function EndDay(y: nat): int {
    31 - (5 * y / 4 + 1) % 7
  }

  /** The last Sunday of a month of 31 days. */
  predicate LastSunday(y: nat, m: nat, d: int)
    requires 1 <= m <= 12
  {
    25 <= d <= 31 && DayOfWeek(y, m, d) == SUNDAY
  }

  /** Summer time begins on the last Sunday of March and ends on the last of October. */
  lemma SummerTimeSundays(y: nat)
    requires 2000 <= y < 2100
    ensures LastSunday(y, 3, BeginDay(y)) && LastSunday(y, 10, EndDay(y))
  {
    var q, r := (y - 2000) / 4, (y - 2000) % 4;
    Starts();
    QuarterForm(y, q, r);
    SundayAt(y, q, r, 3, 5 * y / 4 + 4, 208 * q + 52 * r - 345);
    SundayAt(y, q, r, 10, 5 * y / 4 + 1, 208 * q + 52 * r - 314);
  }

  lemma QuarterForm(y: nat, q: nat, r: nat)
    requires y == 2000 + 4 * q + r && r < 4
    ensures 5 * y / 4 == 2500 + 5 * q + r
  {
    assert 5 * y == 4 * (2500 + 5 * q + r) + r;
  }

  /** The closed form by four-year cycles. */
  lemma ClosedByCycles(y: nat, q: nat, r: nat, m: nat, d: nat)
    requires y == 4 * q + r && r < 4 && 2 < m <= 12
    ensures Closed(y, m, d) == d + MonthStart(m) + 1461 * q + 365 * r
  {
    assert y % 4 == r && (y + 3) / 4 == q + if r == 0 then 0 else 1;
  }

  /** Both the day of the month and the day count are linear in the cycles, modulo 7. */
  lemma SundayAt(y: nat, q: nat, r: nat, m: nat, a: nat, t: int)
    requires y == 2000 + 4 * q + r && r < 4 && q < 25 && 2 < m <= 12
    requires MonthStart(m) + 1461 * q + 365 * r + 36 - a == 7 * t + 6
    ensures LastSunday(y, m, 31 - a % 7)
  {
    var d, days := 31 - a % 7, 31 - a % 7 + MonthStart(m) + 1461 * q + 365 * r;
    ClosedByCycles(y - 2000, q, r, m, d);
    SevenSplit(a, days + 5, t);
    WeekdayIs(y, m, d, days);
  }

  lemma WeekdayIs(y: nat, m: nat, d: nat, days: nat)
    requires y >= 2000 && 1 <= m <= 12 && Closed(y - 2000, m, d) == days < 0x1_0000 && (days + 5) % 7 == 6
    ensures DayOfWeek(y, m, d) == SUNDAY
  {
    assert Days(y, m, d) == days;
  }

  lemma SevenSplit(a: nat, b: int, t: int)
    requires b == 36 - a % 7 + (7 * t + 6 - 36 + a)
    ensures b % 7 == 6
  {
    assert a == 7 * (a / 7) + a % 7;
    assert b == 7 * (t + a / 7) + 6;
  }

  // ---- the clock

  const EPOCH_2000: u32 := 946684800

  /** Days from 1 January 1970 to 1 January of year `y`. */
  function YearDays(y: nat): nat {
    if y <= 1970 then 0 else YearDays(y - 1) + if Leap(y - 1) then 366 else 365
  }

  /** The constant is midnight of 1 January 2000, counted from 1970. */
  lemma EpochCounted()
    ensures EPOCH_2000 as int == 86400 * YearDays(2000)
  {
    assert YearDays(1978) == 2922;
    assert YearDays(1986) == 5844;
    assert YearDays(1994) == 8766;
    assert YearDays(2000) == 10957;
  }

  /** Seconds since 2000, exactly. */
  function Seconds(days: nat, h: nat, m: nat, s: nat): nat {
    86400 * days + 3600 * h + 60 * m + s
  }

  function Wrap(x: int): u32 {
    x % 0x1_0000_0000
  }

  /** The same bits read as a signed number. */
  function Signed(x: u32): int {
    if x < 0x8000_0000 then x else x - 0x1_0000_0000
  }

  lemma WrapSigned(x: u32)
    ensures -0x8000_0000 <= Signed(x) < 0x8000_0000 && Wrap(Signed(x)) == x
  {
  }

  lemma WrapAgain(a: int, c: int)
    ensures Wrap(Wrap(a) + c) == Wrap(a + c)
  {
    var q := a / 0x1_0000_0000;
    assert a == 0x1_0000_0000 * q + Wrap(a);
    Periods(Wrap(a) + c, q);
  }

  lemma Periods(x: int, q: int)
    ensures Wrap(0x1_0000_0000 * q + x) == Wrap(x)
  {
    var k := x / 0x1_0000_0000;
    assert 0x1_0000_0000 * q + x == 0x1_0000_0000 * (q + k) + Wrap(x);
  }

  /** `time2long` in a 32-bit `long`: the result wraps from 2068 on. */
  method Time2Long(days: u16, hour: byte, min: byte, sec: byte) returns (r: int)
    ensures r == Signed(Wrap(Seconds(days, hour, min, sec)))
  {
    var exact := Polynomial(days, hour, min, sec);
    r := Signed(Wrap(exact));
  }

  method Polynomial(days: nat, hour: nat, min: nat, sec: nat) returns (x: nat)
    ensures x == Seconds(days, hour, min, sec)
  {
    x := ((days * 24 + hour) * 60 + min) * 60 + sec;
  }

  /** `RTC_time_FindUnixtime`: the conversion to unsigned undoes the wrap. */
  method FindUnixtime(y: u16, m: byte, d: byte, hour: byte, min: byte, sec: byte) returns (t: u32)
    requires 1 <= m <= 12
    ensures t == Unix(Days(y, m, d), hour, min, sec)
  {
    var days := DaysFrom2000(y, m, d);
    var long := Time2Long(days, hour, min, sec);
    t := AddEpoch(long, days, hour, min, sec);
  }

  method AddEpoch(long: int, ghost days: nat, ghost h: nat, ghost m: nat, ghost s: nat) returns (t: u32)
    requires long == Signed(Wrap(Seconds(days, h, m, s)))
    ensures t == Unix(days, h, m, s)
  {
    ghost var exact := Seconds(days, h, m, s);
    WrapSigned(Wrap(exact));
    t := Wrap(long);
    WrapAgain(exact, EPOCH_2000);
    t := Wrap(t + EPOCH_2000);
  }

  function Unix(days: nat, h: nat, m: nat, s: nat): u32 {
    Wrap(Seconds(days, h, m, s) + EPOCH_2000)
  }

  function ClockOf(t: u32): (nat, nat, nat) {
    var u := Wrap(t - EPOCH_2000);
    (u / 3600 % 24, u / 60 % 60, u % 60)
  }

  /** `unix_to_hh_mm_ss`. */
  method UnixToClock(t: u32) returns (hh: byte, mm: byte, ss: byte)
    ensures (hh as int, mm as int, ss as int) == ClockOf(t)
  {
    var u: nat := Wrap(t - EPOCH_2000);
    assert u / 60 / 60 == u / 3600;
    ss := u % 60;
    u := u / 60;
    mm := u % 60;
    u := u / 60;
    hh := u % 24;
  }

  predicate Clock(h: nat, m: nat, s: nat) {
    h < 24 && m < 60 && s < 60
  }

  lemma Elapsed(days: nat, h: nat, m: nat, s: nat)
    ensures Wrap(Unix(days, h, m, s) - EPOCH_2000) == Wrap(Seconds(days, h, m, s))
  {
    WrapAgain(Seconds(days, h, m, s) + EPOCH_2000, -(EPOCH_2000 as int));
  }

  lemma Sixty(u: nat, days: nat, h: nat, m: nat, s: nat)
    requires u == Seconds(days, h, m, s) && Clock(h, m, s)
    ensures u % 60 == s && u / 60 % 60 == m && u / 3600 % 24 == h
  {
    var minutes, hours := 1440 * days + 60 * h + m, 24 * days + h;
    assert u == 60 * minutes + s;
    assert u / 60 == minutes && u % 60 == s;
    assert minutes == 60 * hours + m;
    assert minutes / 60 == hours && minutes % 60 == m;
    assert u == 3600 * hours + (60 * m + s);
    assert u / 3600 == hours;
  }

  /** The clock is read back exactly while the seconds since 2000 fit in 32 bits. */
  lemma ClockBack(days: u16, h: nat, m: nat, s: nat)
    requires Clock(h, m, s)
    ensures ClockOf(Unix(days, h, m, s)) == (h, m, s) <==> Seconds(days, h, m, s) < 0x1_0000_0000
  {
    var x := Seconds(days, h, m, s);
    Elapsed(days, h, m, s);
    ReadsClock(Unix(days, h, m, s), Wrap(x));
    if x < 0x1_0000_0000 {
      NoWrap(x);
      Sixty(x, days, h, m, s);
    } else {
      Sixteen(x, days, h, m, s);
    }
  }

  lemma ReadsClock(t: u32, u: u32)
    requires Wrap(t - EPOCH_2000) == u
    ensures ClockOf(t) == (u / 3600 % 24, u / 60 % 60, u % 60)
  {
  }

  lemma NoWrap(x: nat)
    requires x < 0x1_0000_0000
    ensures Wrap(x) == x
  {
  }

  /** Midnight of 1 March 2136, as the code counts days, reads as 17:31:44. */
  lemma LateClock()
    ensures Days(2136, 3, 1) == 49734 && ClockOf(Unix(49734, 0, 0, 0)) == (17, 31, 44)
  {
    Starts();
    var x := Seconds(49734, 0, 0, 0);
    Elapsed(49734, 0, 0, 0);
    Periods(x - 0x1_0000_0000, 1);
    NoWrap(x - 0x1_0000_0000);
    ReadsClock(Unix(49734, 0, 0, 0), 2050304);
  }

  /** After a wrap the second is off by sixteen. */
  lemma Sixteen(x: nat, days: u16, h: nat, m: nat, s: nat)
    requires x == Seconds(days, h, m, s) && Clock(h, m, s) && x >= 0x1_0000_0000
    ensures Wrap(x) % 60 != s
  {
    Periods(x, -1);
    var u := x - 0x1_0000_0000;
    assert u == 60 * (1440 * days as int + 60 * h + m - 71582789) + (s + 44);
    if s >= 16 {
      assert u == 60 * (1440 * days as int + 60 * h + m - 71582788) + (s - 16);
    }
  }

  // ---- summer time as an interval of wall-clock time

  function BeginUnix(y: nat): u32
    requires BeginDay(y) >= 0
  {
    Unix(Days(y, 3, BeginDay(y)), 1, 0, 0)
  }

  function EndUnix(y: nat): u32
    requires EndDay(y) >= 0
  {
    Unix(Days(y, 10, EndDay(y)), 1, 0, 0)
  }

  /** `dst_correction_needed_t_y`. */
  method SummerTime(t: u32, y: u16) returns (r: bool)
    ensures r == (BeginUnix(y) <= t <= EndUnix(y))
  {
    var begins := FindUnixtime(y, 3, BeginDay(y), 1, 0, 0);
    r := false;
    if begins <= t {
      var ends := FindUnixtime(y, 10, EndDay(y), 1, 0, 0);
      r := t <= ends;
    }
  }

  /** Not later, within one year: by month, day, second of the day. */
  predicate NotLater(a: Date, s: nat, b: Date, t: nat) {
    a.m < b.m || (a.m == b.m && (a.d < b.d || (a.d == b.d && s <= t)))
  }

  lemma {:induction false} MonthsApart(y: nat, m: nat, k: nat)
    requires y < 100 && 1 <= m < k <= 12
    ensures Closed(y, m, MonthLength(2000 + y, m)) < Closed(y, k, 1)
    decreases k
  {
    SameLeap(2000 + y);
    MonthEnds(y, k - 1);
    if m < k - 1 {
      MonthsApart(y, m, k - 1);
    }
  }

  lemma ClosedOrdered(a: Date, b: Date)
    requires Exists(a) && Exists(b) && a.y == b.y < 2100
    ensures a.m < b.m || (a.m == b.m && a.d < b.d) <==> ClosedAt(a) < ClosedAt(b)
  {
    if a.m < b.m {
      MonthsApart(a.y - 2000, a.m, b.m);
    } else if b.m < a.m {
      MonthsApart(a.y - 2000, b.m, a.m);
    }
  }

  /** Unix time keeps the order of wall-clock times of a year. */
  lemma UnixOrdered(a: Date, s: nat, b: Date, t: nat)
    requires Exists(a) && Exists(b) && a.y == b.y < 2100 && s < 86400 && t < 86400
    ensures NotLater(a, s, b, t) <==> 86400 * ClosedAt(a) + s <= 86400 * ClosedAt(b) + t
  {
    ClosedOrdered(a, b);
    ClosedOrdered(b, a);
  }

  lemma UnixExact(a: Date, h: nat, m: nat, s: nat)
    requires Exists(a) && a.y < 2100 && Clock(h, m, s)
    ensures Unix(Days(a.y, a.m, a.d), h, m, s) as int ==
            EPOCH_2000 as int + 86400 * ClosedAt(a) + 3600 * h + 60 * m + s
  {
    DaysAre(a);
    CenturyBound(a);
    Fits(ClosedAt(a), h, m, s);
  }

  /** For every time of 2000 to 2099 the result is the number of seconds since 1970: 86400 for
      each day of the Gregorian calendar and those of the day. */
  lemma UnixCounts(n: nat, h: nat, m: nat, s: nat)
    requires Nth(n).y < 2100 && Clock(h, m, s)
    ensures var a := Nth(n);
            Unix(Days(a.y, a.m, a.d), h, m, s) as int == 86400 * (YearDays(2000) + n) + 3600 * h + 60 * m + s
  {
    EpochCounted();
    ClosedCounts(n);
    UnixExact(Nth(n), h, m, s);
  }

  lemma DaysAre(a: Date)
    requires Exists(a) && Early(a)
    ensures Days(a.y, a.m, a.d) as int == ClosedAt(a)
  {
    ClosedBound(a);
  }

  lemma Fits(days: nat, h: nat, m: nat, s: nat)
    requires days < 36525 && Clock(h, m, s)
    ensures Unix(days, h, m, s) as int == EPOCH_2000 as int + 86400 * days + 3600 * h + 60 * m + s
  {
    NoWrap(Seconds(days, h, m, s) + EPOCH_2000);
  }

  lemma CenturyBound(a: Date)
    requires Exists(a) && a.y < 2100
    ensures 0 <= ClosedAt(a) < 36525
  {
    ClosedOrdered(a, Date(a.y, 12, 31));
    assert MonthStart(12) == 334 by { Starts(); }
    ClosedByCycles(a.y - 2000, (a.y - 2000) / 4, (a.y - 2000) % 4, 12, 31);
  }

  /** For every date and time of 2000 to 2099, the correction is wanted exactly from one
      o'clock on the last Sunday of March to one o'clock on the last Sunday of October. */
  lemma SummerTimeInterval(a: Date, h: nat, m: nat, s: nat)
    requires Exists(a) && a.y < 2100 && Clock(h, m, s)
    ensures var begins, ends := Date(a.y, 3, BeginDay(a.y)), Date(a.y, 10, EndDay(a.y));
            var t, secs := Unix(Days(a.y, a.m, a.d), h, m, s), 3600 * h + 60 * m + s;
            BeginUnix(a.y) <= t <= EndUnix(a.y)
            <==> NotLater(begins, 3600, a, secs) && NotLater(a, secs, ends, 3600)
  {
    var begins, ends := Date(a.y, 3, BeginDay(a.y)), Date(a.y, 10, EndDay(a.y));
    var secs := 3600 * h + 60 * m + s;
    UnixExact(a, h, m, s);
    UnixExact(begins, 1, 0, 0);
    UnixExact(ends, 1, 0, 0);
    UnixOrdered(begins, 3600, a, secs);
    UnixOrdered(a, secs, ends, 3600);
  }
}
