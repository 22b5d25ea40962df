/** The two copies of the days-to-date algorithm. */
module Calendar {

  datatype Date = Date(year: int, month: int, day: int)

  // ----- the Gregorian calendar

  predicate Leap(y: int) {
    y % 4 == 0 && (y % 100 != 0 || y % 400 == 0)
  }

  function MonthLength(y: int, m: int): int
    requires 1 <= m <= 12
  {
    if m == 2 then if Leap(y) then 29 else 28
    else if m == 4 || m == 6 || m == 9 || m == 11 then 30
    else 31
  }

  predicate ValidDate(d: Date) {
    1 <= d.month <= 12 && 1 <= d.day <= MonthLength(d.year, d.month)
  }

  /** The day after. */
  function NextDay(d: Date): Date
    requires ValidDate(d)
  {
    if d.day < MonthLength(d.year, d.month) then Date(d.year, d.month, d.day + 1)
    else if d.month < 12 then Date(d.year, d.month + 1, 1)
    else Date(d.year + 1, 1, 1)
  }

  predicate Earlier(a: Date, b: Date) {
    || a.year < b.year
    || (a.year == b.year && a.month < b.month)
    || (a.year == b.year && a.month == b.month && a.day < b.day)
  }

  // ----- the algorithm

  /** The year of the era, counted from March, for a day of the era. */
  function YearOfEra(doe: int): int {
    (doe - doe / 1460 + doe / 36524 - doe / 146096) / 365
  }

  /** The first day of a year of the era. */
  function YearStart(yoe: int): int {
    365 * yoe + yoe / 4 - yoe / 100
  }

  function MonthIndex(doy: int): int {
    (5 * doy + 2) / 153
  }

  /** The first day of a month, counted from March, in its year. */
  function MonthStart(mp: int): int {
    (153 * mp + 2) / 5
  }

  /** The date of day `doy` of year `yoe` of an era. */
  function DateAt(era: int, yoe: int, doy: int): Date {
    var mp := MonthIndex(doy);
    var d := doy - MonthStart(mp) + 1;
    var m := if mp < 10 then mp + 3 else mp - 9;
    Date(yoe + era * 400 + if m <= 2 then 1 else 0, m, d)
  }

  /** `civil`: the date of a day counted from 1970-01-01. */
  function Civil(days: int): Date {
    var z := days + 719468;
    var era := z / 146097;
    var doe := z % 146097;
    var yoe := YearOfEra(doe);
    DateAt(era, yoe, doe - YearStart(yoe))
  }

  // ----- years

  /** The length of a year of the era that starts in March: leap when the February that
      closes it belongs to a leap year. */
  function YearDays(yoe: int): int {
    if Leap(yoe + 1) then 366 else 365
  }

  lemma YearStep(yoe: int)
    requires 0 <= yoe < 400
    ensures YearStart(yoe) + YearDays(yoe) == if yoe == 399 then 146097 else YearStart(yoe + 1)
  {
    NextQuarter(yoe);
    NextCentury(yoe);
  }

  lemma NextQuarter(y: int)
    ensures (y + 1) / 4 == y / 4 + if (y + 1) % 4 == 0 then 1 else 0
  {}

  lemma NextCentury(y: int)
    ensures (y + 1) / 100 == y / 100 + if (y + 1) % 100 == 0 then 1 else 0
    ensures (y + 1) % 100 == 0 ==> (y + 1) % 4 == 0
    ensures 0 <= y < 400 ==> ((y + 1) % 400 == 0 <==> y == 399)
  {
    assert (y + 1) % 100 == 0 ==> y + 1 == 4 * (25 * ((y + 1) / 100));
  }

  /** A day of the era as centuries, four-year spans, years and days, and what the parts of
      the formula make of it. */
  lemma SplitEra(doe: int) returns (a: int, b: int, e: int, d: int)
    requires 0 <= doe < 146097
    ensures 0 <= a <= 3 && 0 <= b <= 24 && 0 <= e <= 3 && 0 <= d <= 365
    ensures doe == 36524 * a + 1461 * b + 365 * e + d
    ensures d == 365 ==> e == 3 && (b == 24 ==> a == 3)
  {
    a := if doe / 36524 < 3 then doe / 36524 else 3;
    var r := doe - 36524 * a;
    b := r / 1461;
    var s := r - 1461 * b;
    e := if s / 365 < 3 then s / 365 else 3;
    d := s - 365 * e;
  }

  lemma YearOfParts(doe: int, a: int, b: int, e: int, d: int)
    requires 0 <= a <= 3 && 0 <= b <= 24 && 0 <= e <= 3 && 0 <= d <= 365
    requires doe == 36524 * a + 1461 * b + 365 * e + d
    requires d == 365 ==> e == 3 && (b == 24 ==> a == 3)
    ensures YearOfEra(doe) == 100 * a + 4 * b + e
  {
    var t := if 24 * a + b + 365 * e + d >= 1460 then 1 else 0;
    assert doe / 1460 == 25 * a + b + t;
    var last := if doe == 146096 then 1 else 0;
    assert doe / 36524 == a + last;
    assert doe / 146096 == last;
    assert 0 <= d - t < 365;
  }

  lemma StartOfParts(a: int, b: int, e: int)
    requires 0 <= a <= 3 && 0 <= b <= 24 && 0 <= e <= 3
    ensures YearStart(100 * a + 4 * b + e) == 36524 * a + 1461 * b + 365 * e
    ensures Leap(100 * a + 4 * b + e + 1) <==> e == 3 && (b == 24 ==> a == 3)
  {
    var y := 100 * a + 4 * b + e;
    assert y / 4 == 25 * a + b && y / 100 == a;
    assert (y + 1) % 4 == (e + 1) % 4;
    assert e == 3 ==> ((y + 1) % 100 == 0 <==> b == 24);
    assert e == 3 && b == 24 ==> ((y + 1) % 400 == 0 <==> a == 3);
  }

  /** The formula finds the year in which the day lies. */
  lemma YearFound(doe: int)
    requires 0 <= doe < 146097
    ensures 0 <= YearOfEra(doe) < 400
    ensures 0 <= doe - YearStart(YearOfEra(doe)) < YearDays(YearOfEra(doe))
  {
    var a, b, e, d := SplitEra(doe);
    YearOfParts(doe, a, b, e, d);
    StartOfParts(a, b, e);
  }

  // ----- months

  /** The length of month `mp`, counted from March, in year `y`, also counted from March. */
  function MarchMonthLength(y: int, mp: int): int
    requires 0 <= mp <= 11
  {
    if mp < 10 then MonthLength(y, mp + 3) else MonthLength(y + 1, mp - 9)
  }

  /** The formula finds the month in which the day lies. */
  lemma MonthFound(y: int, doy: int)
    requires 0 <= doy < YearDays(y)
    ensures 0 <= MonthIndex(doy) <= 11
    ensures 0 <= doy - MonthStart(MonthIndex(doy)) < MarchMonthLength(y, MonthIndex(doy))
    ensures MonthIndex(doy) < 11 ==>
      MonthStart(MonthIndex(doy)) + MarchMonthLength(y, MonthIndex(doy)) == MonthStart(MonthIndex(doy) + 1)
    ensures MonthIndex(doy) == 11 ==> MonthStart(11) + MarchMonthLength(y, 11) == YearDays(y)
  {}

  /** The place of a day: its era, the year and day in it, the month and day in that. */
  lemma Placed(days: int) returns (era: int, yoe: int, doy: int, mp: int)
    ensures days + 719468 == 146097 * era + YearStart(yoe) + doy
    ensures 0 <= yoe < 400 && 0 <= doy < YearDays(yoe)
    ensures mp == MonthIndex(doy) && 0 <= mp <= 11
    ensures Civil(days) == DateAt(era, yoe, doy)
  {
    var z := days + 719468;
    var doe := z % 146097;
    era := z / 146097;
    YearFound(doe);
    yoe := YearOfEra(doe);
    doy := doe - YearStart(yoe);
    MonthFound(yoe, doy);
    mp := MonthIndex(doy);
  }

  lemma Mod4ByEra(y: int, era: int)
    ensures (y + era * 400) % 4 == y % 4
  {
    assert y + era * 400 == 4 * (y / 4 + 100 * era) + y % 4;
  }

  lemma Mod100ByEra(y: int, era: int)
    ensures (y + era * 400) % 100 == y % 100
  {
    assert y + era * 400 == 100 * (y / 100 + 4 * era) + y % 100;
  }

  lemma Mod400ByEra(y: int, era: int)
    ensures (y + era * 400) % 400 == y % 400
  {
    assert y + era * 400 == 400 * (y / 400 + era) + y % 400;
  }

  /** An era is a whole number of leap cycles. */
  lemma LeapByEra(y: int, era: int)
    ensures Leap(y + era * 400) == Leap(y)
  {
    Mod4ByEra(y, era);
    Mod100ByEra(y, era);
    Mod400ByEra(y, era);
  }

  /** Every day number has a valid date. */
  lemma CivilValid(days: int)
    ensures ValidDate(Civil(days))
  {
    var era, yoe, doy, mp := Placed(days);
    MonthFound(yoe, doy);
    LeapByEra(yoe, era);
    LeapByEra(yoe + 1, era);
  }

  // ----- days in a row

  lemma YearOrder(y: int, y': int)
    requires 0 <= y < y' < 400
    ensures YearStart(y) + YearDays(y) <= YearStart(y')
  {
    YearStep(y);
    assert y + 1 <= y' && (y + 1) / 4 <= y' / 4;
    assert 365 * (y' - (y + 1)) >= y' / 100 - (y + 1) / 100;
  }

  function DayNumber(era: int, yoe: int, doy: int): int {
    146097 * era + YearStart(yoe) + doy - 719468
  }

  /** The year found for a day of year `yoe` is `yoe`. */
  lemma YearUnique(yoe: int, doy: int)
    requires 0 <= yoe < 400 && 0 <= doy < YearDays(yoe)
    ensures 0 <= YearStart(yoe) + doy < 146097
    ensures YearOfEra(YearStart(yoe) + doy) == yoe
  {
    var doe := YearStart(yoe) + doy;
    YearStep(yoe);
    YearStep(399);
    if yoe < 399 {
      YearOrder(yoe, 399);
    }
    YearFound(doe);
    var y := YearOfEra(doe);
    if y < yoe {
      YearOrder(y, yoe);
    } else if yoe < y {
      YearOrder(yoe, y);
    }
  }

  lemma EraSplit(z: int, era: int, doe: int)
    requires z == 146097 * era + doe && 0 <= doe < 146097
    ensures z / 146097 == era && z % 146097 == doe
  {}

  lemma CivilInEra(days: int, era: int, doe: int)
    requires days + 719468 == 146097 * era + doe && 0 <= doe < 146097
    ensures Civil(days) == DateAt(era, YearOfEra(doe), doe - YearStart(YearOfEra(doe)))
  {
    EraSplit(days + 719468, era, doe);
  }

  /** The algorithm undoes the count. */
  lemma CivilAt(days: int, era: int, yoe: int, doy: int)
    requires 0 <= yoe < 400 && 0 <= doy < YearDays(yoe) && days == DayNumber(era, yoe, doy)
    ensures Civil(days) == DateAt(era, yoe, doy)
  {
    YearUnique(yoe, doy);
    CivilInEra(days, era, YearStart(yoe) + doy);
  }

  /** Within a year of the era, the day after is the next day of the year. */
  lemma NextInYear(era: int, yoe: int, doy: int)
    requires 0 <= yoe < 400 && 0 <= doy && doy + 1 < YearDays(yoe)
    ensures ValidDate(DateAt(era, yoe, doy)) && DateAt(era, yoe, doy + 1) == NextDay(DateAt(era, yoe, doy))
  {
    MonthFound(yoe, doy);
    MonthFound(yoe, doy + 1);
    LeapByEra(yoe, era);
    LeapByEra(yoe + 1, era);
    var mp := MonthIndex(doy);
    assert MonthIndex(doy + 1) == if doy + 1 < MonthStart(mp) + MarchMonthLength(yoe, mp) then mp else mp + 1;
  }

  /** The last day of February is followed by the first of March. */
  lemma FebruaryEnds(d: Date, leap: bool)
    requires leap == Leap(d.year) && d.month == 2 && d.day == if leap then 29 else 28
    ensures ValidDate(d) && NextDay(d) == Date(d.year, 3, 1)
  {}

  lemma FirstOfYear(era: int, yoe: int) returns (d: Date)
    ensures d == DateAt(era, yoe, 0)
    ensures d.year == yoe + era * 400 && d.month == 3 && d.day == 1
  {
    assert MonthIndex(0) == 0;
    d := DateAt(era, yoe, 0);
  }

  lemma LastOfYear(era: int, yoe: int) returns (d: Date)
    ensures d == DateAt(era, yoe, YearDays(yoe) - 1)
    ensures d.year == yoe + 1 + era * 400 && d.month == 2 && d.day == if Leap(d.year) then 29 else 28
  {
    assert MonthIndex(364) == 11 && MonthIndex(365) == 11 && MonthStart(11) == 337;
    d := DateAt(era, yoe, YearDays(yoe) - 1);
    LeapByEra(yoe + 1, era);
  }

  /** Day `n + 1` has the calendar successor of the date of day `n`. */
  lemma CivilSuccessor(days: int)
    ensures ValidDate(Civil(days)) && Civil(days + 1) == NextDay(Civil(days))
  {
    var era, yoe, doy, mp := Placed(days);
    if doy + 1 < YearDays(yoe) {
      NextInYear(era, yoe, doy);
      CivilAt(days + 1, era, yoe, doy + 1);
    } else {
      var last := SuccessorOfYear(days, era, yoe);
    }
  }

  lemma DayAfterYear(era: int, yoe: int)
    requires 0 <= yoe < 400
    ensures DayNumber(era, yoe, YearDays(yoe) - 1) + 1 ==
      if yoe < 399 then DayNumber(era, yoe + 1, 0) else DayNumber(era + 1, 0, 0)
  {
    YearStep(yoe);
  }

  lemma SuccessorOfYear(days: int, era: int, yoe: int) returns (last: Date)
    requires 0 <= yoe < 400 && days == DayNumber(era, yoe, YearDays(yoe) - 1)
    ensures last == DateAt(era, yoe, YearDays(yoe) - 1)
    ensures ValidDate(last) && Civil(days + 1) == NextDay(last)
  {
    last := LastOfYear(era, yoe);
    FebruaryEnds(last, Leap(last.year));
    var next := FirstAfter(days, era, yoe);
  }

  lemma FirstAfter(days: int, era: int, yoe: int) returns (next: Date)
    requires 0 <= yoe < 400 && days == DayNumber(era, yoe, YearDays(yoe) - 1)
    ensures next == Civil(days + 1) == Date(yoe + 1 + era * 400, 3, 1)
  {
    DayAfterYear(era, yoe);
    var era', yoe' := if yoe < 399 then era else era + 1, if yoe < 399 then yoe + 1 else 0;
    CivilAt(days + 1, era', yoe', 0);
    next := FirstOfYear(era', yoe');
  }

  lemma NextIsLater(d: Date)
    requires ValidDate(d)
    ensures Earlier(d, NextDay(d))
  {}

  /** A calendar that moves day by day moves forward. */
  lemma {:induction false} DayByDay(date: int -> Date, a: int, b: int)
    requires forall n: int :: ValidDate(date(n)) && date(n + 1) == NextDay(date(n))
    requires a < b
    ensures Earlier(date(a), date(b))
    decreases b - a
  {
    assert date(b - 1 + 1) == NextDay(date(b - 1));
    NextIsLater(date(b - 1));
    if a < b - 1 {
      DayByDay(date, a, b - 1);
    }
  }

  /** Later days have later dates, so no date comes twice. */
  lemma CivilIncreasing(a: int, b: int)
    ensures a < b ==> Earlier(Civil(a), Civil(b))
    ensures Civil(a) == Civil(b) <==> a == b
  {
    forall n: int
      ensures ValidDate(Civil(n)) && Civil(n + 1) == NextDay(Civil(n))
    {
      CivilSuccessor(n);
    }
    var date := n => Civil(n);
    if a < b {
      DayByDay(date, a, b);
    } else if b < a {
      DayByDay(date, b, a);
    }
  }

  /** Day 0 is 1970-01-01, which fixes every other day. */
  lemma Epoch()
    ensures Civil(0) == Date(1970, 1, 1)
  {
    EraSplit(719468, 4, 135080);
    assert YearOfEra(135080) == 369 && YearStart(369) == 134774;
    assert MonthIndex(306) == 10;
  }

  // ----- the time of day

  /** What `rfc3339` prints: a date by the same formulas, and the second of the day. */
  datatype Stamp = Stamp(date: Date, hour: int, minute: int, second: int)

  function Rfc3339(secs: nat): Stamp {
    var days := secs / 86400;
    var z := days + 719468;
    var era := z / 146097;
    var doe := z % 146097;
    var yoe := (doe - doe / 1460 + doe / 36524 - doe / 146096) / 365;
    var doy := doe - (365 * yoe + yoe / 4 - yoe / 100);
    var mp := (5 * doy + 2) / 153;
    var d := doy - (153 * mp + 2) / 5 + 1;
    var m := if mp < 10 then mp + 3 else mp - 9;
    var y := yoe + era * 400 + if m <= 2 then 1 else 0;
    var rem := secs % 86400;
    Stamp(Date(y, m, d), rem / 3600, rem / 60 % 60, rem % 60)
  }

  /** The second copy of the date algorithm agrees with the first. */
  lemma StampDate(secs: nat)
    ensures Rfc3339(secs).date == Civil(secs / 86400) && ValidDate(Rfc3339(secs).date)
  {
    CivilValid(secs / 86400);
  }

  /** The time of day counts the seconds that are left. */
  lemma StampTime(secs: nat)
    ensures
      var s := Rfc3339(secs);
      && 0 <= s.hour < 24 && 0 <= s.minute < 60 && 0 <= s.second < 60
      && secs == 86400 * (secs / 86400) + 3600 * s.hour + 60 * s.minute + s.second
  {
    SplitDay(secs % 86400);
  }

  lemma SplitDay(rem: nat)
    requires rem < 86400
    ensures 0 <= rem / 3600 < 24 && rem == 3600 * (rem / 3600) + 60 * (rem / 60 % 60) + rem % 60
  {
    assert rem / 60 / 60 == rem / 3600;
  }
}
