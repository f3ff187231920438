/** UTC dates and the calendar arithmetic of certificate periods (internal/domain/series.go, values.go). */
module Calendar {
  import opened Outcomes
  import Division

  // ---- the Gregorian calendar ----

  datatype Date = Date(year: int, month: int, day: int) {
    predicate Valid() { 1 <= month <= 12 && 1 <= day <= DaysInMonth(year, month) }
  }

  predicate IsLeap(year: int) { year % 4 == 0 && (year % 100 != 0 || year % 400 == 0) }

  function DaysInMonth(year: int, month: int): int {
    if month == 2 then (if IsLeap(year) then 29 else 28)
    else if month == 4 || month == 6 || month == 9 || month == 11 then 30
    else 31
  }

  /** Leap days before 1 January of `year`. */
  function LeapDays(year: int): int { (year - 1) / 4 - (year - 1) / 100 + (year - 1) / 400 }

  /** Days from 1970-01-01 to 1 January of `year`. */
  function YearStart(year: int): int { 365 * (year - 1970) + LeapDays(year) - 477 }

  /** Days from 1 January to the first of `month`. */
  function MonthStart(year: int, month: int): int
    requires 1 <= month <= 13
    decreases month
  {
    if month == 1 then 0 else MonthStart(year, month - 1) + DaysInMonth(year, month - 1)
  }

  function DayNumber(d: Date): int
    requires 1 <= d.month <= 12
  {
    YearStart(d.year) + MonthStart(d.year, d.month) + d.day - 1
  }

  lemma YearLength(year: int)
    ensures YearStart(year + 1) - YearStart(year) == if IsLeap(year) then 366 else 365
    ensures MonthStart(year, 13) == YearStart(year + 1) - YearStart(year)
    ensures YearStart(1970) == 0
  {
    assert MonthStart(year, 3) == 31 + DaysInMonth(year, 2);
    assert MonthStart(year, 6) == MonthStart(year, 3) + 92;
    assert MonthStart(year, 9) == MonthStart(year, 6) + 92;
    assert MonthStart(year, 12) == MonthStart(year, 9) + 91;
    LeapStep(year);
  }

  lemma LeapStep(year: int)
    ensures LeapDays(year + 1) - LeapDays(year) == if IsLeap(year) then 1 else 0
  {
    hide *;
    Division.Fourths(year);
    Division.Hundredths(year);
    Division.FourHundredths(year);
    Division.Multiples(year);
    LeapParts(year);
  }

  lemma LeapParts(year: int)
    ensures LeapDays(year + 1) - LeapDays(year) ==
              (year / 4 - (year - 1) / 4) - (year / 100 - (year - 1) / 100) + (year / 400 - (year - 1) / 400)
    ensures IsLeap(year) <==> year % 4 == 0 && (year % 100 != 0 || year % 400 == 0)
  {
  }

  function YearDistance(n: int, from: int): int {
    if n < YearStart(from) then YearStart(from) - n else if n >= YearStart(from + 1) then n - YearStart(from) else 0
  }

  lemma YearNearer(n: int, from: int)
    ensures n < YearStart(from) ==> 0 <= YearDistance(n, from - 1) < YearDistance(n, from)
    ensures n >= YearStart(from + 1) ==> 0 <= YearDistance(n, from + 1) < YearDistance(n, from)
  {
    YearLength(from - 1);
    YearLength(from);
    YearLength(from + 1);
    hide YearStart;
  }

  /** The year that contains a day, searched from `from`. */
  function YearOf(n: int, from: int): (y: int)
    ensures YearStart(y) <= n < YearStart(y + 1)
    decreases YearDistance(n, from)
  {
    YearNearer(n, from);
    if n < YearStart(from) then YearOf(n, from - 1)
    else if n >= YearStart(from + 1) then YearOf(n, from + 1)
    else from
  }

  /** The month of the year that contains day `offset` of it, searched from `from`. */
  function MonthOf(year: int, offset: int, from: int): (m: int)
    requires 1 <= from <= 12 && MonthStart(year, from) <= offset < MonthStart(year, 13)
    ensures from <= m <= 12 && MonthStart(year, m) <= offset < MonthStart(year, m + 1)
    decreases 12 - from
  {
    if from < 12 && offset >= MonthStart(year, from + 1) then MonthOf(year, offset, from + 1) else from
  }

  /** Time.Date: the calendar date of a day number. */
  function CivilOf(n: int): (d: Date)
    ensures d.Valid() && DayNumber(d) == n
  {
    var year := YearOf(n, 1970);
    YearLength(year);
    var offset := n - YearStart(year);
    var month := MonthOf(year, offset, 1);
    Date(year, month, offset - MonthStart(year, month) + 1)
  }

  function MonthIndex(d: Date): int { 12 * d.year + d.month - 1 }

  /** Day number of the first of a month given by its index. */
  function MonthFirst(index: int): int {
    YearStart(index / 12) + MonthStart(index / 12, index % 12 + 1)
  }

  function MonthLength(index: int): (days: int)
    ensures 28 <= days <= 31
  {
    DaysInMonth(index / 12, index % 12 + 1)
  }

  lemma MonthStep(index: int)
    ensures MonthFirst(index + 1) == MonthFirst(index) + MonthLength(index)
  {
    YearLength(index / 12);
    if index % 12 == 11 {
      assert (index + 1) / 12 == index / 12 + 1 && (index + 1) % 12 == 0;
    } else {
      assert (index + 1) / 12 == index / 12 && (index + 1) % 12 == index % 12 + 1;
    }
  }

  lemma {:induction false} MonthsRise(a: int, b: int)
    requires a < b
    ensures MonthFirst(a) + MonthLength(a) <= MonthFirst(b)
    decreases b - a
  {
    hide MonthFirst, MonthLength;
    MonthStep(b - 1);
    if a < b - 1 {
      MonthsRise(a, b - 1);
      MonthLengths(b - 1);
    }
  }

  lemma MonthLengths(index: int)
    ensures 28 <= MonthLength(index) <= 31
  {
  }

  lemma IndexOf(d: Date)
    requires 1 <= d.month <= 12
    ensures MonthIndex(d) / 12 == d.year && MonthIndex(d) % 12 == d.month - 1
    ensures DayNumber(d) == MonthFirst(MonthIndex(d)) + d.day - 1
    ensures MonthLength(MonthIndex(d)) == DaysInMonth(d.year, d.month)
  {
  }

  /** Dates are ordered by month index and day, and day numbers keep that order. */
  lemma DayOrder(a: Date, b: Date)
    requires a.Valid() && b.Valid()
    ensures DayNumber(a) < DayNumber(b) <==>
              MonthIndex(a) < MonthIndex(b) || (MonthIndex(a) == MonthIndex(b) && a.day < b.day)
    ensures DayNumber(a) == DayNumber(b) <==> a == b
  {
    hide DayNumber, MonthFirst, MonthLength, MonthIndex;
    IndexOf(a);
    IndexOf(b);
    if MonthIndex(a) < MonthIndex(b) { MonthsRise(MonthIndex(a), MonthIndex(b)); }
    if MonthIndex(b) < MonthIndex(a) { MonthsRise(MonthIndex(b), MonthIndex(a)); }
  }

  /** Day numbers and dates determine each other. */
  lemma CivilBijection(d: Date, n: int)
    requires d.Valid()
    ensures CivilOf(DayNumber(d)) == d
    ensures CivilOf(n).Valid() && DayNumber(CivilOf(n)) == n
  {
    hide DayNumber, CivilOf;
    DayOrder(CivilOf(DayNumber(d)), d);
  }

  // ---- the calendar in closed form ----

  /** Days from 1970-01-01 in years that begin in March, so that the leap day comes last. */
  function CivilDays(year: int, month: int, day: int): int {
    var y, m := if month <= 2 then year - 1 else year, if month <= 2 then month + 9 else month - 3;
    365 * y + y / 4 - y / 100 + y / 400 + (153 * m + 2) / 5 + day - 1 - 719468
  }

  lemma MarchStart(year: int)
    ensures YearStart(year + 1) - 306 == 365 * year + year / 4 - year / 100 + year / 400 - 719468
  {
  }

  lemma MonthPart(year: int, month: int)
    requires 1 <= month <= 12
    ensures month <= 2 ==> MonthStart(year, month) == (153 * (month + 9) + 2) / 5 - 306
    ensures month > 2 ==>
              MonthStart(year, month) == MonthStart(year, 13) - 306 + (153 * (month - 3) + 2) / 5
  {
    assert MonthStart(year, 3) == 31 + DaysInMonth(year, 2);
    assert MonthStart(year, 6) == MonthStart(year, 3) + 92;
    assert MonthStart(year, 9) == MonthStart(year, 6) + 92;
    assert MonthStart(year, 12) == MonthStart(year, 9) + 91;
  }

  /** The day number counted by years and months is the closed form. */
  lemma ClosedForm(d: Date)
    requires 1 <= d.month <= 12
    ensures DayNumber(d) == CivilDays(d.year, d.month, d.day)
  {
    hide YearStart, MonthStart;
    MonthPart(d.year, d.month);
    MarchStart(if d.month <= 2 then d.year - 1 else d.year);
    YearLength(d.year);
  }

  /** The first day of the month after. */
  function NextFirst(year: int, month: int): int {
    if month == 12 then CivilDays(year + 1, 1, 1) else CivilDays(year, month + 1, 1)
  }

  /** The length of a month is the distance of two firsts in closed form. */
  lemma LengthClosed(year: int, month: int)
    requires 1 <= month <= 12
    ensures DaysInMonth(year, month) == NextFirst(year, month) - CivilDays(year, month, 1)
  {
    hide YearStart, CivilDays, DaysInMonth;
    var first := Date(year, month, 1);
    var next := if month == 12 then Date(year + 1, 1, 1) else Date(year, month + 1, 1);
    ClosedForm(first);
    ClosedForm(next);
    YearLength(year);
  }

  /** A day number is shown as the date whose closed form it is, and whose month is long enough for it. */
  lemma DateClosed(n: int)
    ensures var d := CivilOf(n);
            && 1 <= d.month <= 12 && 1 <= d.day <= NextFirst(d.year, d.month) - CivilDays(d.year, d.month, 1)
            && CivilDays(d.year, d.month, d.day) == n
  {
    hide CivilOf, DayNumber, CivilDays, NextFirst, DaysInMonth;
    ClosedForm(CivilOf(n));
    LengthClosed(CivilOf(n).year, CivilOf(n).month);
  }

  // ---- adding months as the program does ----

  /** Go's integer division truncates toward zero, and its remainder has the dividend's sign. */
  function TruncDiv(a: int, b: int): int
    requires b > 0
  {
    if a >= 0 then a / b else -(-a / b)
  }

  function TruncRem(a: int, b: int): int
    requires b > 0
  {
    a - TruncDiv(a, b) * b
  }

  /** The remainder keeps the dividend's sign and is smaller than the divisor. */
  lemma TruncExactly(a: int, b: int)
    requires b > 0
    ensures a == TruncDiv(a, b) * b + TruncRem(a, b)
    ensures a >= 0 ==> 0 <= TruncRem(a, b) < b
    ensures a <= 0 ==> -b < TruncRem(a, b) <= 0
  {
  }

  /** time.Date's day number: month and day may lie outside their usual ranges. */
  function GoDate(year: int, month: int, day: int): int {
    MonthFirst(12 * year + month - 1) + day - 1
  }

  function LastDayOfMonth(year: int, month: int): int { CivilOf(GoDate(year, month + 1, 0)).day }

  function DayOf(t: Instant): int { t / MICROS_PER_DAY }

  function TimeOfDay(t: Instant): int { t % MICROS_PER_DAY }

  function DateOf(t: Instant): Date { CivilOf(DayOf(t)) }

  function AddCalendarMonths(t: Instant, months: int): Instant {
    var d := DateOf(t);
    var totalMonths := d.month - 1 + months;
    var ny := d.year + TruncDiv(totalMonths, 12);
    var nm := TruncRem(totalMonths, 12);
    var year := if nm < 0 then ny - 1 else ny;
    var month := (if nm < 0 then nm + 12 else nm) + 1;
    var last := LastDayOfMonth(year, month);
    GoDate(year, month, if d.day > last then last else d.day) * MICROS_PER_DAY + TimeOfDay(t)
  }

  lemma LastDayIsLength(year: int, month: int)
    requires 1 <= month <= 12
    ensures LastDayOfMonth(year, month) == DaysInMonth(year, month) ==
              NextFirst(year, month) - CivilDays(year, month, 1)
  {
    hide CivilOf, DayNumber, MonthFirst, MonthLength, CivilDays, NextFirst;
    LengthClosed(year, month);
    var last := Date(year, month, DaysInMonth(year, month));
    IndexOf(last);
    MonthStep(MonthIndex(last));
    CivilBijection(last, 0);
  }

  lemma FloorMonths(d: Date, months: int)
    requires 1 <= d.month <= 12
    ensures var total := d.month - 1 + months;
            var nm := TruncRem(total, 12);
            var year := d.year + TruncDiv(total, 12) - if nm < 0 then 1 else 0;
            var month := nm + 1 + if nm < 0 then 12 else 0;
            1 <= month <= 12 && 12 * year + month - 1 == MonthIndex(d) + months
  {
  }

  function Least(a: int, b: int): int { if a <= b then a else b }

  /** The month index moves by exactly `months`, the day is clamped to the month's last day, the time of day is kept. */
  lemma AddMonthsExact(t: Instant, months: int)
    ensures var d, r := DateOf(t), DateOf(AddCalendarMonths(t, months));
            && MonthIndex(r) == MonthIndex(d) + months
            && r.day == Least(d.day, DaysInMonth(r.year, r.month))
            && TimeOfDay(AddCalendarMonths(t, months)) == TimeOfDay(t)
  {
    hide CivilOf, DayNumber, MonthFirst, LastDayOfMonth, TruncDiv, TruncRem;
    var d := DateOf(t);
    var total := d.month - 1 + months;
    var nm := TruncRem(total, 12);
    var year := d.year + TruncDiv(total, 12) - if nm < 0 then 1 else 0;
    var month := nm + 1 + if nm < 0 then 12 else 0;
    FloorMonths(d, months);
    LastDayIsLength(year, month);
    var r := Date(year, month, Least(d.day, DaysInMonth(year, month)));
    IndexOf(r);
    CivilBijection(r, 0);
    var n := AddCalendarMonths(t, months);
    assert n == DayNumber(r) * MICROS_PER_DAY + TimeOfDay(t);
    assert DayOf(n) == DayNumber(r);
  }

  /** The same with every day number and month length in closed form. */
  lemma AddMonthsClosed(t: Instant, months: int)
    ensures var n := AddCalendarMonths(t, months);
            var d, r := CivilOf(t / 86_400_000_000), CivilOf(n / 86_400_000_000);
            && CivilDays(d.year, d.month, d.day) == t / 86_400_000_000
            && CivilDays(r.year, r.month, r.day) == n / 86_400_000_000
            && n % 86_400_000_000 == t % 86_400_000_000
            && 1 <= r.month <= 12 && 12 * r.year + r.month == 12 * d.year + d.month + months
            && r.day == Least(d.day, NextFirst(r.year, r.month) - CivilDays(r.year, r.month, 1))
  {
    hide AddCalendarMonths, CivilOf, CivilDays, NextFirst, DaysInMonth, DayNumber;
    AddMonthsExact(t, months);
    var n := AddCalendarMonths(t, months);
    DateClosed(t / 86_400_000_000);
    DateClosed(n / 86_400_000_000);
    LengthClosed(CivilOf(n / 86_400_000_000).year, CivilOf(n / 86_400_000_000).month);
  }

  /** An instant is its date and time of day. */
  lemma InstantParts(t: Instant)
    ensures DateOf(t).Valid() && DayNumber(DateOf(t)) == DayOf(t)
    ensures t == DayOf(t) * MICROS_PER_DAY + TimeOfDay(t) && 0 <= TimeOfDay(t) < MICROS_PER_DAY
  {
    hide DayNumber, CivilOf;
    assert CivilOf(DayOf(t)).Valid();
  }

  lemma InstantOrder(a: Instant, b: Instant)
    ensures a < b <==> DayOf(a) < DayOf(b) || (DayOf(a) == DayOf(b) && TimeOfDay(a) < TimeOfDay(b))
  {
  }

  lemma ZeroMonths(t: Instant)
    ensures AddCalendarMonths(t, 0) == t
  {
    hide AddCalendarMonths, DayNumber, CivilOf;
    AddMonthsExact(t, 0);
    var n := AddCalendarMonths(t, 0);
    InstantParts(t);
    InstantParts(n);
    SameMonth(DateOf(t), DateOf(n));
  }

  lemma SameMonth(a: Date, b: Date)
    requires a.Valid() && b.Valid() && MonthIndex(a) == MonthIndex(b)
    ensures a.year == b.year && a.month == b.month
  {
  }

  /** More months is always later, so any positive count ends after it begins. */
  lemma AddMonthsRises(t: Instant, a: int, b: int)
    requires a < b
    ensures AddCalendarMonths(t, a) < AddCalendarMonths(t, b)
    ensures b > 0 ==> AddCalendarMonths(t, b) > t
  {
    hide AddCalendarMonths, DayNumber, CivilOf, MonthIndex, DaysInMonth, TimeOfDay, DayOf;
    AddMonthsLater(t, a, b);
    ZeroMonths(t);
    if b > 0 { AddMonthsLater(t, 0, b); }
  }

  lemma AddMonthsLater(t: Instant, a: int, b: int)
    requires a < b
    ensures AddCalendarMonths(t, a) < AddCalendarMonths(t, b)
  {
    hide AddCalendarMonths, DayNumber, CivilOf, MonthIndex, DaysInMonth, TimeOfDay, DayOf;
    AddMonthsExact(t, a);
    AddMonthsExact(t, b);
    var m, n := AddCalendarMonths(t, a), AddCalendarMonths(t, b);
    InstantParts(m);
    InstantParts(n);
    DayOrder(DateOf(m), DateOf(n));
    InstantOrder(m, n);
  }

  /**
   * Not monotone in the start: the order of two starts is reversed exactly when both clamp to one day and the later
   * date has the earlier time.
   */
  lemma StartOrderReversedExactly(s: Instant, t: Instant, months: int)
    requires s < t
    ensures AddCalendarMonths(s, months) > AddCalendarMonths(t, months) <==>
            && MonthIndex(DateOf(s)) == MonthIndex(DateOf(t))
            && DateOf(s).day < DateOf(t).day
            && DateOf(s).day >= DateOf(AddCalendarMonths(s, months)).day == DateOf(AddCalendarMonths(t, months)).day
            && TimeOfDay(s) > TimeOfDay(t)
  {
    hide AddCalendarMonths, DayNumber, CivilOf, DaysInMonth, TimeOfDay, DayOf;
    AddMonthsExact(s, months);
    AddMonthsExact(t, months);
    var m, n := AddCalendarMonths(s, months), AddCalendarMonths(t, months);
    InstantParts(s);
    InstantParts(t);
    InstantParts(m);
    InstantParts(n);
    DayOrder(DateOf(s), DateOf(t));
    DayOrder(DateOf(n), DateOf(m));
    InstantOrder(s, t);
    InstantOrder(n, m);
  }

  /** 1970-01-30 23:00 and 1970-01-31 01:00, each plus one month. */
  lemma StartOrderReversedExample()
    ensures var s, t := 29 * MICROS_PER_DAY + 23 * 3600 * MICROS_PER_SECOND,
              30 * MICROS_PER_DAY + 3600 * MICROS_PER_SECOND;
            s < t && AddCalendarMonths(s, 1) > AddCalendarMonths(t, 1)
  {
    hide AddCalendarMonths, CivilOf, DayNumber;
    var s, t := 29 * MICROS_PER_DAY + 23 * 3600 * MICROS_PER_SECOND, 30 * MICROS_PER_DAY + 3600 * MICROS_PER_SECOND;
    LateJanuary(30);
    LateJanuary(31);
    assert DayOf(s) == 29 && DayOf(t) == 30;
    AddMonthsExact(s, 1);
    AddMonthsExact(t, 1);
    StartOrderReversedExactly(s, t, 1);
  }

  lemma LateJanuary(day: int)
    requires 1 <= day <= 31
    ensures CivilOf(day - 1) == Date(1970, 1, day)
  {
    hide CivilOf;
    YearLength(1970);
    assert DayNumber(Date(1970, 1, day)) == day - 1;
    CivilBijection(Date(1970, 1, day), 0);
  }
}
