/** Calendar dates as days and milliseconds since 1970. */
module Calendar {

  predicate IsLeapYear(y: int) {
    (y % 4 == 0 && y % 100 != 0) || y % 400 == 0
  }

  function DaysInMonth(y: int, mo: int): int {
    if mo < 1 || mo > 12 then 0
    else if mo == 2 then (if IsLeapYear(y) then 29 else 28)
    else if mo == 4 || mo == 6 || mo == 9 || mo == 11 then 30
    else 31
  }

  // ----- The calendar, one day after the other

  datatype Date = Date(y: int, mo: int, d: int)

  const EPOCH := Date(1970, 1, 1)

  predicate Valid(t: Date) {
    t.y >= 1970 && 1 <= t.mo <= 12 && 1 <= t.d <= DaysInMonth(t.y, t.mo)
  }

  function NextDay(t: Date): Date {
    if t.d < DaysInMonth(t.y, t.mo) then t.(d := t.d + 1)
    else if t.mo < 12 then Date(t.y, t.mo + 1, 1)
    else Date(t.y + 1, 1, 1)
  }

  /** The date n days after the epoch. */
  function Nth(n: nat): Date {
    if n == 0 then EPOCH else NextDay(Nth(n - 1))
  }

  // ----- The closed form

  function CountLeaps(y: nat): int {
    y / 4 - y / 100 + y / 400
  }

  /** The days of the months before mo. */
  function DaysBefore(y: int, mo: int): int
    decreases mo
  {
    if mo <= 1 then 0 else DaysBefore(y, mo - 1) + DaysInMonth(y, mo - 1)
  }

  function YearDays(y: int): int
    requires y >= 1970
  {
    (y - 1970) * 365 + CountLeaps(y - 1) - CountLeaps(1969)
  }

  function Days(t: Date): int
    requires t.y >= 1970
  {
    YearDays(t.y) + DaysBefore(t.y, t.mo) + t.d - 1
  }

  lemma LeapStep(y: nat)
    requires y > 0
    ensures CountLeaps(y) - CountLeaps(y - 1) == if IsLeapYear(y) then 1 else 0
  {
    Divides(y, 4);
    Divides(y, 100);
    Divides(y, 400);
    Multiples(y, y / 100, y / 400);
  }

  lemma Multiples(y: nat, c: nat, q: nat)
    requires c == y / 100 && q == y / 400
    ensures y % 100 == 0 ==> y % 4 == 0
    ensures y % 400 == 0 ==> y % 100 == 0
  {
    assert y % 100 == 0 ==> y == 4 * (25 * c);
    assert y % 400 == 0 ==> y == 100 * (4 * q);
  }

  lemma Divides(y: nat, k: nat)
    requires y > 0 && (k == 4 || k == 100 || k == 400)
    ensures y / k - (y - 1) / k == if y % k == 0 then 1 else 0
  {
  }

  lemma WholeYear(y: int)
    ensures DaysBefore(y, 13) == if IsLeapYear(y) then 366 else 365
  {
    Quarter(y, 1);
    Quarter(y, 4);
    Quarter(y, 7);
    Quarter(y, 10);
  }

  lemma Quarter(y: int, mo: int)
    requires mo >= 1
    ensures DaysBefore(y, mo + 3)
            == DaysBefore(y, mo) + DaysInMonth(y, mo) + DaysInMonth(y, mo + 1) + DaysInMonth(y, mo + 2)
  {
    assert DaysBefore(y, mo + 2) == DaysBefore(y, mo + 1) + DaysInMonth(y, mo + 1);
    assert DaysBefore(y, mo + 1) == DaysBefore(y, mo) + DaysInMonth(y, mo);
  }

  lemma YearStep(y: int)
    requires y >= 1970
    ensures YearDays(y + 1) == YearDays(y) + DaysBefore(y, 13)
  {
    LeapStep(y);
    WholeYear(y);
  }

  /** The closed form grows by one from each day to the next. */
  lemma DaysStep(t: Date)
    requires Valid(t)
    ensures Valid(NextDay(t)) && Days(NextDay(t)) == Days(t) + 1
  {
    hide YearDays;
    if t.d == DaysInMonth(t.y, t.mo) && t.mo == 12 {
      YearStep(t.y);
    }
  }

  /** The closed form counts the days one by one. */
  lemma {:induction false} DaysOfNth(n: nat)
    ensures Valid(Nth(n)) && Days(Nth(n)) == n
  {
    if n > 0 {
      DaysOfNth(n - 1);
      DaysStep(Nth(n - 1));
    }
  }

  lemma {:induction false} DaysBeforeGrows(y: int, a: int, b: int)
    requires 1 <= a <= b <= 13
    ensures DaysBefore(y, a) <= DaysBefore(y, b)
    ensures a < b ==> DaysBefore(y, a) + DaysInMonth(y, a) <= DaysBefore(y, b)
    decreases b - a
  {
    if a < b {
      DaysBeforeGrows(y, a, b - 1);
    }
  }

  lemma {:induction false} YearDaysGrow(a: int, b: int)
    requires 1970 <= a < b
    ensures YearDays(a) + DaysBefore(a, 13) <= YearDays(b)
    decreases b - a
  {
    hide YearDays;
    YearStep(b - 1);
    WholeYear(b - 1);
    if a < b - 1 {
      YearDaysGrow(a, b - 1);
    }
  }

  predicate Earlier(s: Date, t: Date) {
    s.y < t.y || (s.y == t.y && (s.mo < t.mo || (s.mo == t.mo && s.d < t.d)))
  }

  /** Earlier dates have fewer days. */
  lemma DaysGrow(s: Date, t: Date)
    requires Valid(s) && Valid(t) && Earlier(s, t)
    ensures Days(s) < Days(t)
  {
    hide YearDays;
    DaysBeforeGrows(s.y, s.mo, 13);
    DaysBeforeGrows(t.y, 1, t.mo);
    if s.y < t.y {
      YearDaysGrow(s.y, t.y);
    } else if s.mo < t.mo {
      DaysBeforeGrows(s.y, s.mo, t.mo);
    }
  }

  /** And so every valid date is reached, at the day its closed form says. */
  lemma NthOfDays(t: Date)
    requires Valid(t)
    ensures Days(t) >= 0 && Nth(Days(t)) == t
  {
    hide Days, Nth;
    assert EPOCH == t || Earlier(EPOCH, t);
    assert Days(EPOCH) == 0 by { DaysOfNth(0); NthZero(); }
    if t != EPOCH {
      DaysGrow(EPOCH, t);
    }
    var u := Nth(Days(t));
    DaysOfNth(Days(t));
    if Earlier(u, t) {
      DaysGrow(u, t);
    } else if Earlier(t, u) {
      DaysGrow(t, u);
    }
  }

  lemma NthZero()
    ensures Nth(0) == EPOCH
  {
  }

  // ----- Milliseconds

  datatype Time = Time(date: Date, h: int, mi: int, sec: int, ms: int)

  predicate ValidTime(t: Time) {
    Valid(t.date) && 0 <= t.h <= 23 && 0 <= t.mi <= 59 && 0 <= t.sec <= 59 && 0 <= t.ms <= 999
  }

  function InDay(t: Time): int {
    ((t.h * 60 + t.mi) * 60 + t.sec) * 1000 + t.ms
  }

  function Millis(t: Time): int
    requires t.date.y >= 1970
  {
    Days(t.date) * 86400000 + InDay(t)
  }

  predicate EarlierTime(s: Time, t: Time) {
    || Earlier(s.date, t.date)
    || (s.date == t.date && (s.h < t.h || (s.h == t.h && (s.mi < t.mi || (s.mi == t.mi
         && (s.sec < t.sec || (s.sec == t.sec && s.ms < t.ms)))))))
  }

  lemma InDayBounds(t: Time)
    requires ValidTime(t)
    ensures 0 <= InDay(t) < 86400000
  {
  }

  /** Milliseconds are strictly increasing in the order of year, month, day, hour, minute, second and millisecond. */
  lemma MillisGrow(s: Time, t: Time)
    requires ValidTime(s) && ValidTime(t) && EarlierTime(s, t)
    ensures 0 <= Millis(s) < Millis(t)
  {
    hide Days;
    InDayBounds(s);
    InDayBounds(t);
    NthOfDays(s.date);
    if Earlier(s.date, t.date) {
      DaysGrow(s.date, t.date);
    }
  }

  method ToEpochMs(t: Time) returns (r: int)
    requires ValidTime(t)
    ensures r == Millis(t)
  {
    var days := (t.date.y - 1970) * 365 + CountLeaps(t.date.y - 1) - CountLeaps(1969);
    for m := 1 to t.date.mo
      invariant days == YearDays(t.date.y) + DaysBefore(t.date.y, m)
    {
      days := days + DaysInMonth(t.date.y, m);
    }
    days := days + t.date.d - 1;
    assert days == Days(t.date);
    NthOfDays(t.date);
    var secs := days * 86400 + t.h * 3600 + t.mi * 60 + t.sec;
    if secs < 0 {
      return 0;
    }
    if secs == 0 && t.ms == 0 {
      return 0;
    }
    r := secs * 1000 + t.ms;
  }

  // ----- The calendar against other formulas

  /** The days before a month: a line through the month lengths, less the days that February lacks. */
  lemma DaysBeforeIs(y: int, mo: int)
    requires 1 <= mo <= 13
    ensures DaysBefore(y, mo) == (367 * mo - 362) / 12 - (if mo <= 2 then 0 else if IsLeapYear(y) then 1 else 2)
  {
    assert DaysBefore(y, 1) == 0;
    Quarter(y, 1);
    Quarter(y, 4);
    Quarter(y, 7);
    Quarter(y, 10);
    assert DaysBefore(y, 2) == 31;
    Step(y, 4);
    Step(y, 7);
    Step(y, 10);
    assert DaysBefore(y, 3) == DaysBefore(y, 2) + DaysInMonth(y, 2);
  }

  lemma Step(y: int, mo: int)
    requires mo >= 1
    ensures DaysBefore(y, mo + 1) == DaysBefore(y, mo) + DaysInMonth(y, mo)
    ensures DaysBefore(y, mo + 2) == DaysBefore(y, mo + 1) + DaysInMonth(y, mo + 1)
  {
  }

  /** Four centuries are 146097 days, from whatever year. */
  lemma FourCenturies(y: int)
    requires y >= 1970
    ensures YearDays(y + 400) == YearDays(y) + 146097
  {
    var n: nat := y - 1;
    assert (n + 400) / 4 == n / 4 + 100 && (n + 400) / 100 == n / 100 + 4 && (n + 400) / 400 == n / 400 + 1;
  }

  /** The leap years are the multiples of four, but for three centuries out of four. */
  lemma LeapYears(y: int)
    ensures y % 4 != 0 ==> !IsLeapYear(y)
    ensures y % 4 == 0 && y % 100 != 0 ==> IsLeapYear(y)
    ensures y % 100 == 0 ==> (IsLeapYear(y) <==> y / 100 % 4 == 0)
  {
    var c := y / 100;
    if y % 100 == 0 {
      assert y == 100 * c;
      Century(c);
    } else {
      NotCentury(y);
    }
  }

  lemma Century(c: int)
    ensures (100 * c) % 400 == 0 <==> c % 4 == 0
    ensures (100 * c) % 4 == 0
  {
    assert c == c / 4 * 4 + c % 4;
    assert 100 * c == 400 * (c / 4) + 100 * (c % 4);
    assert 100 * c == 4 * (25 * c);
  }

  lemma NotCentury(y: int)
    ensures y % 100 != 0 ==> y % 400 != 0
  {
    assert y == y / 400 * 400 + y % 400;
    assert y % 400 == 0 ==> y == 100 * (4 * (y / 400));
  }
}
