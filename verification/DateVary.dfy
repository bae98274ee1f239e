/** The calendar arithmetic behind date -v (vary.c), against the formula for seconds since
    the Epoch in section 4.15 of the Base Definitions volume of POSIX.1-2008.  Times are not
    normalised by mktime: the argument mk is 0. */
module DateVary {

  // ----- the calendar

  /** daysinmonth, for months 0 to 11; years count from 1900. */
  function DaysIn(year: int, mon: int): (n: nat)
    ensures 0 <= mon < 12 ==> 28 <= n <= 31
  {
    if mon == 1 then
      if (year + 1900) % 400 == 0 then 29
      else if (year + 1900) % 100 == 0 then 28
      else if (year + 1900) % 4 == 0 then 29
      else 28
    else if 0 <= mon < 12 then [31, 0, 31, 30, 31, 30, 31, 31, 30, 31, 30, 31][mon]
    else 0
  }

  /** tm_yday on the first day of a month. */
  function MonthStart(year: int, mon: nat): nat {
    if mon == 0 then 0 else MonthStart(year, mon - 1) + DaysIn(year, mon - 1)
  }

  /** The days from the Epoch to the first day of a year: the last four terms of the formula
      of POSIX, with divisions that round down, so that it holds before 1970 as well. */
  function YearStart(year: int): int {
    (year - 70) * 365 + (year - 69) / 4 - (year - 1) / 100 + (year + 299) / 400
  }

  datatype Date = Date(year: int, mon: int, mday: int)

  predicate ValidDate(d: Date) {
    0 <= d.mon < 12 && 1 <= d.mday <= DaysIn(d.year, d.mon)
  }

  /** Days since the Epoch. */
  function DayNumber(d: Date): int
    requires 0 <= d.mon < 12
  {
    YearStart(d.year) + MonthStart(d.year, d.mon) + d.mday - 1
  }

  /** The year is as long as its months say. */
  lemma YearLength(year: int)
    ensures YearStart(year + 1) == YearStart(year) + MonthStart(year, 12)
  {
    MonthSum(year);
    Leap4(year);
    Leap100(year);
    Leap400(year);
    Multiples(year + 1900);
  }

  lemma MonthSum(year: int)
    ensures MonthStart(year, 12) == 337 + DaysIn(year, 1)
  {
    assert MonthStart(year, 1) == 31;
    assert MonthStart(year, 2) == 31 + DaysIn(year, 1);
    assert MonthStart(year, 4) == MonthStart(year, 3) + 30 == MonthStart(year, 2) + 61;
    assert MonthStart(year, 6) == MonthStart(year, 5) + 30 == MonthStart(year, 4) + 61;
    assert MonthStart(year, 8) == MonthStart(year, 7) + 31 == MonthStart(year, 6) + 62;
    assert MonthStart(year, 10) == MonthStart(year, 9) + 31 == MonthStart(year, 8) + 61;
    assert MonthStart(year, 12) == MonthStart(year, 11) + 31 == MonthStart(year, 10) + 61;
  }

  lemma Leap4(year: int)
    ensures (year - 68) / 4 - (year - 69) / 4 == (if (year + 1900) % 4 == 0 then 1 else 0)
  {
  }

  lemma Leap100(year: int)
    ensures year / 100 - (year - 1) / 100 == (if (year + 1900) % 100 == 0 then 1 else 0)
  {
  }

  lemma Leap400(year: int)
    ensures (year + 300) / 400 - (year + 299) / 400 == (if (year + 1900) % 400 == 0 then 1 else 0)
  {
  }

  lemma Multiples(y: int)
    ensures y % 400 == 0 ==> y % 100 == 0
    ensures y % 100 == 0 ==> y % 4 == 0
  {
  }

  function NextMonth(year: int, mon: int): (int, int) {
    if mon == 11 then (year + 1, 0) else (year, mon + 1)
  }

  /** The day behind the last of a month is the first of the next. */
  lemma MonthEnd(year: int, mon: int)
    requires 0 <= mon < 12
    ensures var (y, m) := NextMonth(year, mon);
            DayNumber(Date(y, m, 1)) == DayNumber(Date(year, mon, DaysIn(year, mon))) + 1
  {
    if mon == 11 {
      YearLength(year);
    }
  }

  lemma {:induction false} MonthBound(year: int, mon: nat, more: nat)
    requires mon + more <= 12
    ensures MonthStart(year, mon) <= MonthStart(year, mon + more)
    decreases more
  {
    if more > 0 {
      MonthBound(year, mon, more - 1);
    }
  }

  lemma {:induction false} YearBound(year: int, more: nat)
    ensures YearStart(year) + (if more > 0 then MonthStart(year, 12) else 0) <= YearStart(year + more)
    decreases more
  {
    if more > 0 {
      YearLength(year + more - 1);
      YearBound(year, more - 1);
      if more == 1 {
        YearLength(year);
      }
    }
  }

  /** Days since the Epoch tell dates apart, and their order. */
  lemma DayOrder(a: Date, b: Date)
    requires ValidDate(a) && ValidDate(b)
    requires a.year < b.year || (a.year == b.year && (a.mon < b.mon || (a.mon == b.mon && a.mday < b.mday)))
    ensures DayNumber(a) < DayNumber(b)
  {
    if a.year < b.year {
      YearBound(a.year, b.year - a.year);
      MonthBound(a.year, a.mon + 1, 11 - a.mon);
    } else if a.mon < b.mon {
      MonthBound(a.year, a.mon + 1, b.mon - a.mon - 1);
    }
  }

  lemma SameDay(a: Date, b: Date)
    requires ValidDate(a) && ValidDate(b) && DayNumber(a) == DayNumber(b)
    ensures a == b
  {
    if a != b {
      if a.year < b.year || (a.year == b.year && (a.mon < b.mon || (a.mon == b.mon && a.mday < b.mday))) {
        DayOrder(a, b);
      } else {
        DayOrder(b, a);
      }
    }
  }

  predicate Leap(year: int) {
    var y := year + 1900;
    y % 4 == 0 && (y % 100 != 0 || y % 400 == 0)
  }

  /** adjyear leaves the day alone: the date stays valid unless it is 29 February and the year
      reached has none. */
  lemma YearKeepsDate(d: Date, year: int)
    requires ValidDate(d)
    ensures ValidDate(d.(year := year)) <==> !(d.mon == 1 && d.mday == 29 && !Leap(year))
  {
    Multiples(year + 1900);
    Multiples(d.year + 1900);
  }

  /** 29 February 2004, a year on. */
  lemma YearBreaksDate()
    ensures ValidDate(Date(104, 1, 29)) && !ValidDate(Date(105, 1, 29))
  {
  }

  /** The days of a year before month mon, from the calendar. */
  function DaysBefore(year: int, mon: nat): nat
    requires mon <= 12
  {
    [0, 31, 59, 90, 120, 151, 181, 212, 243, 273, 304, 334, 365][mon] + (if mon >= 2 && Leap(year) then 1 else 0)
  }

  /** The table of vary.c is that calendar. */
  lemma Calendar(year: int, mon: nat)
    requires mon <= 12
    ensures MonthStart(year, mon) == DaysBefore(year, mon)
    ensures mon < 12 ==> DaysIn(year, mon) == DaysBefore(year, mon + 1) - DaysBefore(year, mon)
  {
    Multiples(year + 1900);
    if mon > 0 {
      Calendar(year, mon - 1);
    }
  }

  /** 1970-01-01 was a Thursday. */
  function Weekday(day: int): int {
    (day + 4) % 7
  }

  // ----- struct tm

  /** '+', '-' or a plain number */
  datatype Direction = Plus | Minus | Set

  datatype Fields = Fields(date: Date, hour: int, min: int, sec: int)

  predicate ValidFields(f: Fields) {
    ValidDate(f.date) && 0 <= f.hour < 24 && 0 <= f.min < 60 && 0 <= f.sec < 60
  }

  /** Seconds since the Epoch. */
  function Seconds(f: Fields): int
    requires 0 <= f.date.mon < 12
  {
    ((DayNumber(f.date) * 24 + f.hour) * 60 + f.min) * 60 + f.sec
  }

  /** In the words of POSIX, with tm_yday from the calendar. */
  lemma PosixFormula(f: Fields)
    requires ValidFields(f)
    ensures var year := f.date.year; var yday := DaysBefore(year, f.date.mon) + f.date.mday - 1;
            Seconds(f) == f.sec + f.min * 60 + f.hour * 3600 + yday * 86400 + (year - 70) * 31536000
                        + ((year - 69) / 4) * 86400 - ((year - 1) / 100) * 86400 + ((year + 299) / 400) * 86400
  {
    hide DaysBefore, MonthStart;
    Calendar(f.date.year, f.date.mon);
  }

  function Noon(year: int, mon: int, mday: int): Fields {
    Fields(Date(year - 1900, mon - 1, mday), 12, 0, 0)
  }

  /** Noon of the day is at secs and on the day wday of the week, 0 for Sunday. */
  predicate Known(year: int, mon: int, mday: int, secs: int, wday: int)
    requires 1 <= mon <= 12
  {
    && ValidFields(Noon(year, mon, mday)) && Seconds(Noon(year, mon, mday)) == secs
    && Weekday(DayNumber(Noon(year, mon, mday).date)) == wday
  }

  lemma KnownIs(year: int, mon: int, mday: int, secs: int, wday: int)
    requires 1 <= mon <= 12 && 1 <= mday <= DaysBefore(year - 1900, mon) - DaysBefore(year - 1900, mon - 1)
    requires secs == 86400 * (YearStart(year - 1900) + DaysBefore(year - 1900, mon - 1) + mday - 1) + 43200
    requires wday == (YearStart(year - 1900) + DaysBefore(year - 1900, mon - 1) + mday + 3) % 7
    ensures Known(year, mon, mday, secs, wday)
  {
    hide MonthStart, DaysIn, DaysBefore, YearStart;
    Calendar(year - 1900, mon - 1);
  }

  /** The last days of the months of 2001. */
  lemma SpringOf2001()
    ensures Known(2001, 1, 31, 980942400, 3)
    ensures Known(2001, 2, 28, 983361600, 3)
    ensures Known(2001, 3, 31, 986040000, 6)
    ensures Known(2001, 4, 30, 988632000, 1)
    ensures Known(2001, 5, 31, 991310400, 4)
    ensures Known(2001, 6, 30, 993902400, 6)
  {
    hide Known;
    KnownIs(2001, 1, 31, 980942400, 3);
    KnownIs(2001, 2, 28, 983361600, 3);
    KnownIs(2001, 3, 31, 986040000, 6);
    KnownIs(2001, 4, 30, 988632000, 1);
    KnownIs(2001, 5, 31, 991310400, 4);
    KnownIs(2001, 6, 30, 993902400, 6);
  }

  /** And of the others. */
  lemma AutumnOf2001()
    ensures Known(2001, 7, 31, 996580800, 2)
    ensures Known(2001, 8, 31, 999259200, 5)
    ensures Known(2001, 9, 30, 1001851200, 0)
    ensures Known(2001, 10, 31, 1004529600, 3)
    ensures Known(2001, 11, 30, 1007121600, 5)
    ensures Known(2001, 12, 31, 1009800000, 1)
  {
    hide Known;
    KnownIs(2001, 7, 31, 996580800, 2);
    KnownIs(2001, 8, 31, 999259200, 5);
    KnownIs(2001, 9, 30, 1001851200, 0);
    KnownIs(2001, 10, 31, 1004529600, 3);
    KnownIs(2001, 11, 30, 1007121600, 5);
    KnownIs(2001, 12, 31, 1009800000, 1);
  }

  /** The Epoch, leap days and years without, and a date before 1970. */
  lemma OtherDates()
    ensures Known(1970, 1, 1, 43200, 4)
    ensures Known(2000, 2, 29, 951825600, 2)
    ensures Known(2004, 12, 31, 1104494400, 5)
    ensures Known(1969, 7, 20, -14212800, 0)
    ensures Known(1900, 3, 1, -2203848000, 4)
    ensures Known(2100, 2, 28, 4107499200, 0)
  {
    hide Known;
    KnownIs(1970, 1, 1, 43200, 4);
    KnownIs(2000, 2, 29, 951825600, 2);
    KnownIs(2004, 12, 31, 1104494400, 5);
    KnownIs(1969, 7, 20, -14212800, 0);
    KnownIs(1900, 3, 1, -2203848000, 4);
    KnownIs(2100, 2, 28, 4107499200, 0);
  }

  /** Seconds since the Epoch determine the fields. */
  lemma SameSecond(f: Fields, g: Fields)
    requires ValidFields(f) && ValidFields(g) && Seconds(f) == Seconds(g)
    ensures f == g
  {
    hide DayNumber, ValidDate;
    SameDay(f.date, g.date);
  }

  /** The month mon is reached after d months: val, or less than a year for the month named
      val. */
  predicate MovedMonths(dir: Direction, istext: bool, val: int, mon: int, d: int) {
    match dir
    case Plus => if istext then 0 <= d < 12 && mon == val - 1 else d == val
    case Minus => if istext then -12 < d <= 0 && mon == val - 1 else d == -val
    case Set => mon == val - 1
  }

  /** A day is reached after d days, from one that is wday in its week: val weeks, or less than a
      week to the day named val, or the day val of the same week. */
  predicate MovedDays(dir: Direction, istext: bool, val: int, wday: int, d: int) {
    match dir
    case Plus => if istext then 0 <= d < 7 && (wday + d == val || wday + d == val + 7) else d == 7 * val
    case Minus => if istext then -7 < d <= 0 && (wday + d == val || wday + d == val - 7) else d == -7 * val
    case Set => wday + d == val
  }

  /** When tm_wday is right, the day reached is the day named. */
  lemma NamedWeekday(dir: Direction, istext: bool, val: int, day: int, d: int)
    requires (istext || dir.Set?) && 0 <= val < 7 && MovedDays(dir, istext, val, Weekday(day), d)
    ensures Weekday(day + d) == val
  {
  }

  lemma NamedReached(y: int, m: int, y': int, m': int, d: int, val: int)
    requires 0 <= m < 12 && 0 <= m' < 12 && 12 * y' + m' == 12 * y + m + d
    ensures 1 <= val <= 12 && (m + d == val - 1 || m + d == val + 11 || m + d == val - 13) ==> m' == val - 1
  {
  }

  class Tm {
    var year: int
    var mon: int
    var mday: int
    var hour: int
    var min: int
    var sec: int
    var wday: int

    ghost function Day(): Date
      reads this
    {
      Date(year, mon, mday)
    }

    ghost function All(): Fields
      reads this
    {
      Fields(Day(), hour, min, sec)
    }

    constructor (f: Fields, wday: int)
      ensures All() == f && this.wday == wday
    {
      year, mon, mday := f.date.year, f.date.mon, f.date.mday;
      hour, min, sec, this.wday := f.hour, f.min, f.sec, wday;
    }

    method AdjYear(dir: Direction, val: int) returns (ok: bool)
      modifies this`year
      ensures ok && (dir.Plus? ==> year == old(year) + val) && (dir.Minus? ==> year == old(year) - val)
      ensures dir.Set? ==> year == if val < 69 then val + 100 else if val > 1900 then val - 1900 else val
      ensures ValidDate(old(Day())) ==> (ValidDate(Day()) <==> !(mon == 1 && mday == 29 && !Leap(year)))
    {
      ghost var was := Day();
      match dir {
        case Plus => year := year + val;
        case Minus => year := year - val;
        case Set =>
          year := val;
          if year < 69 {
            year := year + 100;
          } else if year > 1900 {
            year := year - 1900;
          }
      }
      if ValidDate(was) {
        YearKeepsDate(was, year);
      }
      ok := true;
    }

    /** How far a named month lies ahead or behind: less than a year, none for the current. */
    method NamedMonth(dir: Direction, val: int) returns (d: int)
      requires 0 <= mon < 12 && 1 <= val <= 12 && !dir.Set?
      ensures 0 <= d < 12
      ensures dir.Plus? ==> mon + d == val - 1 || mon + d == val + 11
      ensures dir.Minus? ==> mon - d == val - 1 || mon - d == val - 13
    {
      if dir.Plus? {
        d := if val <= mon then val + 11 - mon else val - (mon + 1);
      } else {
        d := if val - 1 > mon then 13 - val + mon else mon - val + 1;
      }
    }

    method MonthsAhead(val: nat)
      requires 0 <= mon < 12
      modifies this`year, this`mon
      ensures 0 <= mon < 12 && 12 * year + mon == old(12 * year + mon) + val
    {
      if val != 0 {
        var ok := AdjYear(Plus, (mon + val) / 12);
        mon := mon + val % 12;
        if mon > 11 {
          mon := mon - 12;
        }
      }
    }

    method MonthsBack(val: nat)
      requires 0 <= mon < 12
      modifies this`year, this`mon
      ensures 0 <= mon < 12 && 12 * year + mon == old(12 * year + mon) - val
    {
      if val != 0 {
        var ok := AdjYear(Minus, val / 12);
        var v := val % 12;
        if v > mon {
          ok := AdjYear(Minus, 1);
          v := v - 12;
        }
        mon := mon - v;
      }
    }

    /** The month moves by exactly val, or to the nearest month of that name in the asked
        direction, this one included; the day is cut to the length of the month reached. */
    method AdjMon(dir: Direction, val: int, istext: bool) returns (ok: bool)
      requires 0 <= mon < 12 && (istext ==> val < 0 || 1 <= val <= 12)
      modifies this`year, this`mon, this`mday
      ensures ok == (val >= 0 && (dir.Set? ==> 1 <= val <= 12))
      ensures !ok ==> Day() == old(Day())
      ensures ok ==> 0 <= mon < 12 && mday == (if old(mday) > DaysIn(year, mon) then DaysIn(year, mon) else old(mday))
      ensures ok ==> MovedMonths(dir, istext, val, mon, 12 * year + mon - old(12 * year + mon))
      ensures ok && dir.Set? ==> year == old(year)
      ensures ok && !istext && dir.Plus? ==> 12 * year + mon == old(12 * year + mon) + val
      ensures ok && !istext && dir.Minus? ==> 12 * year + mon == old(12 * year + mon) - val
      ensures ok && (istext || dir.Set?) ==> mon == val - 1
    {
      if val < 0 {
        return false;
      }
      var v := val;
      if istext && !dir.Set? {
        v := NamedMonth(dir, val);
      }
      match dir {
        case Plus =>
          ghost var y, m := year, mon;
          MonthsAhead(v);
          NamedReached(y, m, year, mon, v, val);
        case Minus =>
          ghost var y, m := year, mon;
          MonthsBack(v);
          NamedReached(y, m, year, mon, -v, val);
        case Set =>
          if v > 12 || v < 1 {
            return false;
          }
          mon := v - 1;
      }
      var lmdays := DaysIn(year, mon);
      if mday > lmdays {
        mday := lmdays;
      }
      ok := true;
    }

    /** The loop of adjday for '+'. */
    method AddDays(days: nat)
      requires ValidDate(Day())
      modifies this`year, this`mon, this`mday
      ensures ValidDate(Day()) && DayNumber(Day()) == old(DayNumber(Day())) + days
    {
      hide DayNumber;
      var val: nat := days;
      while val > 0
        invariant ValidDate(Day()) && DayNumber(Day()) + val == old(DayNumber(Day())) + days
      {
        var daycount := DaysIn(year, mon);
        DayInMonth(Day(), daycount);
        if val > daycount - mday {
          val := val - (daycount - mday + 1);
          MonthEnd(year, mon);
          mday := 1;
          var ok := AdjMon(Plus, 1, false);
        } else {
          DayInMonth(Day(), mday + val);
          mday := mday + val;
          val := 0;
        }
      }
    }

    /** The loop of adjday for '-'. */
    method SubDays(days: nat)
      requires ValidDate(Day())
      modifies this`year, this`mon, this`mday
      ensures ValidDate(Day()) && DayNumber(Day()) == old(DayNumber(Day())) - days
    {
      hide DayNumber;
      var val: nat := days;
      while val > 0
        invariant ValidDate(Day()) && DayNumber(Day()) - val == old(DayNumber(Day())) - days
      {
        if val >= mday {
          DayInMonth(Day(), 1);
          val := val - mday;
          mday := 1;
          var ok := AdjMon(Minus, 1, false);
          MonthEnd(year, mon);
          mday := DaysIn(year, mon);
        } else {
          DayInMonth(Day(), mday - val);
          mday := mday - val;
          val := 0;
        }
      }
    }

    /** The date moves by exactly val days; the time of day stays. */
    method AdjDay(dir: Direction, val: int) returns (ok: bool)
      requires ValidDate(Day())
      modifies this`year, this`mon, this`mday
      ensures dir.Set? ==> ok == (1 <= val <= old(DaysIn(year, mon)))
      ensures dir.Set? ==> Day() == if ok then old(Day()).(mday := val) else old(Day())
      ensures !dir.Set? ==> ok
      ensures dir.Plus? && val >= 0 ==> ValidDate(Day()) && DayNumber(Day()) == old(DayNumber(Day())) + val
      ensures dir.Minus? && val >= 0 ==> ValidDate(Day()) && DayNumber(Day()) == old(DayNumber(Day())) - val
      ensures !dir.Set? && val < 0 ==> Day() == old(Day()).(mday := if dir.Plus? then old(mday) + val else old(mday) - val)
    {
      hide DayNumber;
      match dir {
        case Plus =>
          if val >= 0 {
            AddDays(val);
          } else {
            mday := mday + val;
          }
        case Minus =>
          if val >= 0 {
            SubDays(val);
          } else {
            mday := mday - val;
          }
        case Set =>
          if val > 0 && val <= DaysIn(year, mon) {
            mday := val;
          } else {
            return false;
          }
      }
      ok := true;
    }

    /** How far a named day lies ahead or behind: less than a week, none for today. */
    method NamedDay(dir: Direction, val: int) returns (d: int)
      requires 0 <= wday < 7 && 0 <= val < 7 && !dir.Set?
      ensures 0 <= d < 7
      ensures dir.Plus? ==> wday + d == val || wday + d == val + 7
      ensures dir.Minus? ==> wday - d == val || wday - d == val - 7
    {
      if dir.Plus? {
        d := if val < wday then 7 - wday + val else val - wday;
      } else {
        d := if val > wday then 7 - val + wday else wday - val;
      }
    }

    /** Weeks, or the nearest day of that name in the asked direction, today included; a plain
        number names a day of this week. */
    method AdjWday(dir: Direction, val: int, istext: bool) returns (ok: bool)
      requires ValidDate(Day()) && 0 <= wday < 7 && (istext ==> val < 7)
      modifies this`year, this`mon, this`mday
      ensures ok == (val >= 0 && (dir.Set? ==> val < 7)) && ValidDate(Day()) && (!ok ==> Day() == old(Day()))
      ensures ok ==> MovedDays(dir, istext, val, wday, DayNumber(Day()) - old(DayNumber(Day())))
      ensures ok && !istext && dir.Plus? ==> DayNumber(Day()) == old(DayNumber(Day())) + 7 * val
      ensures ok && !istext && dir.Minus? ==> DayNumber(Day()) == old(DayNumber(Day())) - 7 * val
    {
      hide DayNumber, ValidDate;
      if val < 0 {
        return false;
      }
      ok := true;
      if dir.Set? {
        if val < wday {
          ok := AdjDay(Minus, wday - val);
        } else if val > 6 {
          return false;
        } else if val > wday {
          ok := AdjDay(Plus, val - wday);
        }
      } else {
        var d := val * 7;
        if istext {
          d := NamedDay(dir, val);
        }
        if d != 0 {
          ok := AdjDay(dir, d);
        }
      }
    }

    method HoursAhead(val: nat)
      requires ValidFields(All())
      modifies this`year, this`mon, this`mday, this`hour
      ensures ValidFields(All()) && Seconds(All()) == old(Seconds(All())) + 3600 * val
    {
      hide DayNumber, ValidDate;
      if val != 0 {
        var days := (hour + val) / 24;
        hour := hour + val % 24;
        hour := hour % 24;
        var ok := AdjDay(Plus, days);
      }
    }

    method HoursBack(val: nat)
      requires ValidFields(All())
      modifies this`year, this`mon, this`mday, this`hour
      ensures ValidFields(All()) && Seconds(All()) == old(Seconds(All())) - 3600 * val
    {
      hide DayNumber, ValidDate;
      if val != 0 {
        var days, v := val / 24, val % 24;
        if v > hour {
          days, v := days + 1, v - 24;
        }
        hour := hour - v;
        var ok := AdjDay(Minus, days);
      }
    }

    method AdjHour(dir: Direction, val: int) returns (ok: bool)
      requires ValidFields(All())
      modifies this`year, this`mon, this`mday, this`hour
      ensures ok == (val >= 0 && (dir.Set? ==> val < 24)) && ValidFields(All()) && (!ok ==> All() == old(All()))
      ensures ok && dir.Plus? ==> Seconds(All()) == old(Seconds(All())) + 3600 * val
      ensures ok && dir.Minus? ==> Seconds(All()) == old(Seconds(All())) - 3600 * val
      ensures ok && dir.Set? ==> All() == old(All()).(hour := val)
    {
      hide DayNumber, ValidDate;
      if val < 0 {
        return false;
      }
      match dir {
        case Plus => HoursAhead(val);
        case Minus => HoursBack(val);
        case Set =>
          if val > 23 {
            return false;
          }
          hour := val;
      }
      ok := true;
    }

    method MinsAhead(val: nat)
      requires ValidFields(All())
      modifies this`year, this`mon, this`mday, this`hour, this`min
      ensures ValidFields(All()) && Seconds(All()) == old(Seconds(All())) + 60 * val
    {
      hide DayNumber, ValidDate;
      if val != 0 {
        var ok := AdjHour(Plus, (min + val) / 60);
        min := min + val % 60;
        if min > 59 {
          min := min - 60;
        }
      }
    }

    method MinsBack(val: nat)
      requires ValidFields(All())
      modifies this`year, this`mon, this`mday, this`hour, this`min
      ensures ValidFields(All()) && Seconds(All()) == old(Seconds(All())) - 60 * val
    {
      hide DayNumber, ValidDate;
      if val != 0 {
        var ok := AdjHour(Minus, val / 60);
        var v := val % 60;
        if v > min {
          ok := AdjHour(Minus, 1);
          v := v - 60;
        }
        min := min - v;
      }
    }

    method AdjMin(dir: Direction, val: int) returns (ok: bool)
      requires ValidFields(All())
      modifies this`year, this`mon, this`mday, this`hour, this`min
      ensures ok == (val >= 0 && (dir.Set? ==> val < 60)) && ValidFields(All()) && (!ok ==> All() == old(All()))
      ensures ok && dir.Plus? ==> Seconds(All()) == old(Seconds(All())) + 60 * val
      ensures ok && dir.Minus? ==> Seconds(All()) == old(Seconds(All())) - 60 * val
      ensures ok && dir.Set? ==> All() == old(All()).(min := val)
    {
      hide DayNumber, ValidDate;
      if val < 0 {
        return false;
      }
      match dir {
        case Plus => MinsAhead(val);
        case Minus => MinsBack(val);
        case Set =>
          if val > 59 {
            return false;
          }
          min := val;
      }
      ok := true;
    }

    method SecsAhead(val: nat)
      requires ValidFields(All())
      modifies this`year, this`mon, this`mday, this`hour, this`min, this`sec
      ensures ValidFields(All()) && Seconds(All()) == old(Seconds(All())) + val
    {
      hide DayNumber, ValidDate;
      if val != 0 {
        var ok := AdjMin(Plus, (sec + val) / 60);
        sec := sec + val % 60;
        if sec > 59 {
          sec := sec - 60;
        }
      }
    }

    method SecsBack(val: nat)
      requires ValidFields(All())
      modifies this`year, this`mon, this`mday, this`hour, this`min, this`sec
      ensures ValidFields(All()) && Seconds(All()) == old(Seconds(All())) - val
    {
      hide DayNumber, ValidDate;
      if val != 0 {
        var ok := AdjMin(Minus, val / 60);
        var v := val % 60;
        if v > sec {
          ok := AdjMin(Minus, 1);
          v := v - 60;
        }
        sec := sec - v;
      }
    }

    method AdjSec(dir: Direction, val: int) returns (ok: bool)
      requires ValidFields(All())
      modifies this`year, this`mon, this`mday, this`hour, this`min, this`sec
      ensures ok == (val >= 0 && (dir.Set? ==> val < 60)) && ValidFields(All()) && (!ok ==> All() == old(All()))
      ensures ok && dir.Plus? ==> Seconds(All()) == old(Seconds(All())) + val
      ensures ok && dir.Minus? ==> Seconds(All()) == old(Seconds(All())) - val
      ensures ok && dir.Set? ==> All() == old(All()).(sec := val)
    {
      hide DayNumber, ValidDate;
      if val < 0 {
        return false;
      }
      match dir {
        case Plus => SecsAhead(val);
        case Minus => SecsBack(val);
        case Set =>
          if val > 59 {
            return false;
          }
          sec := val;
      }
      ok := true;
    }
  }

  lemma DayInMonth(d: Date, mday: int)
    requires 0 <= d.mon < 12
    ensures DayNumber(d.(mday := mday)) == DayNumber(d) + (mday - d.mday)
  {
  }

  // ----- adjustments by fixed units

  /** The letters S, M, H, d and w of vary_apply. */
  datatype Unit = Second | Minute | Hour | Day | Week

  function Size(u: Unit): int {
    match u
    case Second => 1
    case Minute => 60
    case Hour => 3600
    case Day => 86400
    case Week => 604800
  }

  lemma Sizes()
    ensures Size(Second) == 1 && Size(Minute) == 60 * Size(Second) && Size(Hour) == 60 * Size(Minute)
    ensures Size(Day) == 24 * Size(Hour) && Size(Week) == 7 * Size(Day)
  {
  }

  function Opposite(dir: Direction): Direction {
    match dir
    case Plus => Minus
    case Minus => Plus
    case Set => Set
  }

  /** One -v option with a sign and one of these letters. */
  method Adjust(t: Tm, u: Unit, dir: Direction, val: nat) returns (ok: bool)
    requires ValidFields(t.All()) && 0 <= t.wday < 7 && !dir.Set?
    modifies t
    ensures ok && ValidFields(t.All()) && t.wday == old(t.wday)
    ensures Seconds(t.All()) == old(Seconds(t.All())) + (if dir.Plus? then Size(u) * val else -(Size(u) * val))
  {
    hide DayNumber, ValidDate;
    match u
    case Second => ok := t.AdjSec(dir, val);
    case Minute => ok := t.AdjMin(dir, val);
    case Hour => ok := t.AdjHour(dir, val);
    case Day => ok := t.AdjDay(dir, val);
    case Week => ok := t.AdjWday(dir, val, false);
  }

  /** Going forth and back by the same amount gives back every field, across month and year
      ends and leap days. */
  method ForthAndBack(t: Tm, u: Unit, dir: Direction, val: nat)
    requires ValidFields(t.All()) && 0 <= t.wday < 7 && !dir.Set?
    modifies t
    ensures t.All() == old(t.All())
  {
    ghost var f := t.All();
    var ok := Adjust(t, u, dir, val);
    ok := Adjust(t, u, Opposite(dir), val);
    SameSecond(f, t.All());
  }

  /** The month that lies d months behind or before another. */
  function MonthAfter(year: int, mon: int, d: int): (int, int) {
    ((12 * year + mon + d) / 12, (12 * year + mon + d) % 12)
  }

  function Signed(dir: Direction, val: int): int {
    if dir.Minus? then -val else val
  }

  lemma MonthIndex(year: int, mon: int, n: int)
    requires 0 <= mon < 12 && n == 12 * year + mon
    ensures n / 12 == year && n % 12 == mon
  {
  }

  /** Months are not a fixed unit: going forth and back gives back the date exactly when the
      month reached on the way has a day of that number, and otherwise the last day of that month
      stays behind. */
  method MonthsForthAndBack(t: Tm, dir: Direction, val: nat)
    requires ValidDate(t.Day()) && !dir.Set?
    modifies t
    ensures var (y, m) := MonthAfter(old(t.year), old(t.mon), Signed(dir, val));
            && t.Day() == old(t.Day()).(mday := if old(t.mday) <= DaysIn(y, m) then old(t.mday) else DaysIn(y, m))
            && (t.Day() == old(t.Day()) <==> old(t.mday) <= DaysIn(y, m))
  {
    ghost var d, was := Signed(dir, val), t.Day();
    var ok := t.AdjMon(dir, val, false);
    MonthIndex(t.year, t.mon, 12 * was.year + was.mon + d);
    ok := t.AdjMon(Opposite(dir), val, false);
    MonthIndex(t.year, t.mon, 12 * was.year + was.mon);
    MonthIndex(was.year, was.mon, 12 * was.year + was.mon);
  }

  /** 31 January 2001, a month on and a month back, is 28 January. */
  method MonthsLose() returns (d: Date)
    ensures d == Date(101, 0, 28)
  {
    var t := new Tm(Fields(Date(101, 0, 31), 0, 0, 0), 3);
    assert MonthAfter(101, 0, 1) == (101, 1) && DaysIn(101, 1) == 28;
    MonthsForthAndBack(t, Plus, 1);
    d := Date(t.year, t.mon, t.mday);
  }
}
