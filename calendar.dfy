/** The lock-free calendar decomposition of log.c (is_leap_year and
    nolocks_localtime): a Unix timestamp, a cached timezone offset and a
    daylight-saving flag become the fields of a `struct tm`.

    The decomposition is stated twice: as pure functions (FindYear,
    FindMonth, Decompose) and as the method NoLocksLocaltime, which runs
    the two counting loops of the C code and is proved equal to Decompose.
    ToTimestamp is the inverse, written independently as a sum of year and
    month lengths; the lemmas tie the two together in both directions. */
module Calendar {

  const SECS_MIN: int := 60
  const SECS_HOUR: int := 3600
  const SECS_DAY: int := 3600 * 24

  /** The fields of `struct tm` that nolocks_localtime fills in.
      `year` is stored as the calendar year minus 1900, as in C. */
  datatype Tm = Tm(
    sec: int, min: int, hour: int,
    mday: int, mon: int, year: int,
    wday: int, yday: int, isdst: int)

  /** Where the year loop stops: the year reached and the day of that year. */
  datatype YearDay = YearDay(year: int, yday: int)

  /** Where the month loop stops: the month reached and the day of that
      month, counting from 0. */
  datatype MonthDay = MonthDay(mon: int, day: int)

  /** Gregorian leap rule, decided by the same chain of tests as the C code. */
  function IsLeapYear(year: int): (leap: bool)
    ensures leap <==> year % 4 == 0 && (year % 100 != 0 || year % 400 == 0)
  {
    if year % 4 != 0 then false
    else if year % 100 != 0 then true
    else if year % 400 != 0 then false
    else true
  }

  /** `365 + is_leap_year(year)`. */
  function YearLength(year: int): int {
    365 + if IsLeapYear(year) then 1 else 0
  }

  /** The local table `mdays` before February is adjusted. */
  const MDAYS: seq<int> := [31, 28, 31, 30, 31, 30, 31, 31, 30, 31, 30, 31]

  /** The table `mdays` after `mdays[1] += is_leap_year(year)`. */
  function MonthTable(leap: bool): (mdays: seq<int>)
    ensures IsMonthTable(mdays)
  {
    MDAYS[1 := MDAYS[1] + if leap then 1 else 0]
  }

  /** Twelve months, none of them empty. */
  predicate IsMonthTable(mdays: seq<int>) {
    |mdays| == 12 && forall mon :: 0 <= mon < 12 ==> mdays[mon] > 0
  }

  /** Month lengths: thirty days have April, June, September and November
      (months 3, 5, 8 and 10 counting from 0), February has 28 or 29. */
  function MonthLength(mon: int, leap: bool): int
    requires 0 <= mon < 12
  {
    if mon == 1 then (if leap then 29 else 28)
    else if mon == 3 || mon == 5 || mon == 8 || mon == 10 then 30
    else 31
  }

  /** The C table, adjusted for leap years, lists the month lengths. */
  lemma MonthTableLengths(leap: bool)
    ensures forall mon :: 0 <= mon < 12 ==> MonthTable(leap)[mon] == MonthLength(mon, leap)
  {
  }

  /** Days in the years first..last-1. */
  function DaysBetween(first: int, last: int): nat
    requires first <= last
    decreases last - first
  {
    if first == last then 0 else YearLength(first) + DaysBetween(first + 1, last)
  }

  /** Counting the years from the end instead of from the start. */
  lemma {:induction false} DaysBetweenSnoc(first: int, last: int)
    requires first <= last
    ensures DaysBetween(first, last + 1) == DaysBetween(first, last) + YearLength(last)
    decreases last - first
  {
    if first < last {
      DaysBetweenSnoc(first + 1, last);
    }
  }

  /** Between 1970 and 2100 every fourth year, starting with 1972, is a leap
      year. */
  lemma {:induction false} DaysSinceEpoch(year: int)
    requires 1970 <= year <= 2100
    ensures DaysBetween(1970, year) == 365 * (year - 1970) + (year - 1969) / 4
    decreases year
  {
    if year > 1970 {
      DaysSinceEpoch(year - 1);
      DaysBetweenSnoc(1970, year - 1);
    }
  }

  /** Days in the months 0..mon-1 of a year. */
  function DaysBeforeMonth(mon: int, mdays: seq<int>): nat
    requires IsMonthTable(mdays) && 0 <= mon <= 12
  {
    if mon == 0 then 0 else DaysBeforeMonth(mon - 1, mdays) + mdays[mon - 1]
  }

  /** Days in the months mon..11 of a year. */
  function MonthsLeft(mon: int, mdays: seq<int>): nat
    requires IsMonthTable(mdays) && 0 <= mon <= 12
    decreases 12 - mon
  {
    if mon == 12 then 0 else mdays[mon] + MonthsLeft(mon + 1, mdays)
  }

  /** The month table adds up to the length of the year. */
  lemma MonthTableTotal(leap: bool)
    ensures MonthsLeft(0, MonthTable(leap)) == 365 + if leap then 1 else 0
  {
    var mdays := MonthTable(leap);
    assert MonthsLeft(10, mdays) == 61;
    assert MonthsLeft(8, mdays) == 122;
    assert MonthsLeft(6, mdays) == 184;
    assert MonthsLeft(4, mdays) == 245;
    assert MonthsLeft(2, mdays) == 306;
  }

  /** Every month boundary splits the year in two. */
  lemma {:induction false} MonthsSplit(mon: int, mdays: seq<int>)
    requires IsMonthTable(mdays) && 0 <= mon <= 12
    ensures DaysBeforeMonth(mon, mdays) + MonthsLeft(mon, mdays) == MonthsLeft(0, mdays)
    decreases mon
  {
    if mon > 0 {
      MonthsSplit(mon - 1, mdays);
    }
  }

  /** The year loop of nolocks_localtime: starting at `year`, subtract whole
      years from `days` until fewer days remain than the current year has.
      The result is the year reached and the day of that year. */
  function FindYear(days: nat, year: int): (r: YearDay)
    ensures year <= r.year && 0 <= r.yday <= days && r.yday < YearLength(r.year)
    decreases days
  {
    if YearLength(year) > days then YearDay(year, days)
    else FindYear(days - YearLength(year), year + 1)
  }

  /** The month loop of nolocks_localtime: starting at month `mon`, subtract
      whole months from `days` until fewer days remain than the current
      month has. The requires says that `days` lies within the year, so the
      loop stops before running past December. */
  function FindMonth(days: nat, mon: int, mdays: seq<int>): (r: MonthDay)
    requires IsMonthTable(mdays) && 0 <= mon < 12 && days < MonthsLeft(mon, mdays)
    ensures mon <= r.mon < 12 && 0 <= r.day <= days && r.day < mdays[r.mon]
    decreases 12 - mon
  {
    if days < mdays[mon] then MonthDay(mon, days)
    else
      assert MonthsLeft(12, mdays) == 0;
      assert mon + 1 < 12;
      FindMonth(days - mdays[mon], mon + 1, mdays)
  }

  /** The time after the timezone and daylight-saving adjustment. */
  function Adjusted(t: int, tz: int, dst: int): int {
    t - tz + 3600 * dst
  }

  /** One turn of the month loop keeps the search on the same result. */
  lemma FindMonthStep(days: nat, mon: int, mdays: seq<int>)
    requires IsMonthTable(mdays) && 0 <= mon < 12 && mdays[mon] <= days < MonthsLeft(mon, mdays)
    ensures mon + 1 < 12 && days - mdays[mon] < MonthsLeft(mon + 1, mdays)
    ensures FindMonth(days - mdays[mon], mon + 1, mdays) == FindMonth(days, mon, mdays)
  {
  }

  /** What nolocks_localtime writes into `*tmp`. Only defined from the epoch
      on: the C code documents that it does not work before 1/1/1970, where
      C's truncating `/` and `%` would also differ from Dafny's. */
  function Decompose(t: int, tz: int, dst: int): (tm: Tm)
    requires Adjusted(t, tz, dst) >= 0
    ensures 1970 <= tm.year + 1900 && 0 <= tm.mon < 12 && 1 <= tm.mday <= 31
    ensures 0 <= tm.hour < 24 && 0 <= tm.min < 60 && 0 <= tm.sec < 60
    ensures 0 <= tm.yday < 366 && tm.isdst == dst
  {
    var a := Adjusted(t, tz, dst);
    FromDaysFields(a / SECS_DAY, a % SECS_DAY, dst);
    MonthTableLengths(IsLeapYear(FromDays(a / SECS_DAY, a % SECS_DAY, dst).year + 1900));
    FromDays(a / SECS_DAY, a % SECS_DAY, dst)
  }

  /** The day of the week, counting from Sunday as 0: the epoch fell on a
      Thursday. */
  function Weekday(days: int): int {
    (days + 4) % 7
  }

  /** The fields for a number of whole days since the epoch and a number of
      seconds into the last day. */
  function FromDays(days: nat, seconds: int, dst: int): Tm {
    var YearDay(year, yday) := FindYear(days, 1970);
    var leap := IsLeapYear(year);
    MonthTableTotal(leap);
    var MonthDay(mon, d) := FindMonth(yday, 0, MonthTable(leap));
    Tm(sec := (seconds % SECS_HOUR) % SECS_MIN,
       min := (seconds % SECS_HOUR) / SECS_MIN,
       hour := seconds / SECS_HOUR,
       mday := d + 1,
       mon := mon,
       year := year - 1900,
       wday := Weekday(days),
       yday := yday,
       isdst := dst)
  }

  lemma FromDaysOf(days: nat, seconds: int, dst: int, year: int, yday: nat, mon: int, d: nat)
    requires FindYear(days, 1970) == YearDay(year, yday)
    requires yday < MonthsLeft(0, MonthTable(IsLeapYear(year)))
    requires FindMonth(yday, 0, MonthTable(IsLeapYear(year))) == MonthDay(mon, d)
    ensures FromDays(days, seconds, dst) ==
      Tm(sec := (seconds % SECS_HOUR) % SECS_MIN, min := (seconds % SECS_HOUR) / SECS_MIN,
         hour := seconds / SECS_HOUR, mday := d + 1, mon := mon, year := year - 1900,
         wday := Weekday(days), yday := yday, isdst := dst)
  {
  }

  /** The fields agree with what the year search, the month search and the
      division of the seconds give for a day count and a second of the day. */
  predicate Searched(days: nat, seconds: int, tm: Tm) {
    && FindYear(days, 1970) == YearDay(tm.year + 1900, tm.yday)
    && tm.yday < MonthsLeft(0, MonthTable(IsLeapYear(tm.year + 1900)))
    && FindMonth(tm.yday, 0, MonthTable(IsLeapYear(tm.year + 1900))) == MonthDay(tm.mon, tm.mday - 1)
    && tm.hour == seconds / SECS_HOUR && tm.min == (seconds % SECS_HOUR) / SECS_MIN
    && tm.sec == (seconds % SECS_HOUR) % SECS_MIN && tm.wday == Weekday(days)
  }

  /** FromDays produces the fields that the searches agree with. */
  lemma FromDaysIs(days: nat, seconds: int, tm: Tm)
    requires Searched(days, seconds, tm)
    ensures FromDays(days, seconds, tm.isdst) == tm
  {
    FromDaysOf(days, seconds, tm.isdst, tm.year + 1900, tm.yday, tm.mon, tm.mday - 1);
  }

  /** ...and the fields FromDays produces are the ones the searches give. */
  lemma FromDaysSearched(days: nat, seconds: int, dst: int)
    ensures Searched(days, seconds, FromDays(days, seconds, dst))
  {
    FromDaysYear(days, seconds, dst);
    FromDaysYearBound(days, seconds, dst);
    FromDaysMonth(days, seconds, dst);
  }

  /** FromDays takes its year and its day of the year from the year search. */
  lemma FromDaysYear(days: nat, seconds: int, dst: int)
    ensures var tm := FromDays(days, seconds, dst);
      FindYear(days, 1970) == YearDay(tm.year + 1900, tm.yday)
  {
  }

  /** ...so its day of the year lies inside that year's month table. */
  lemma FromDaysYearBound(days: nat, seconds: int, dst: int)
    ensures var tm := FromDays(days, seconds, dst);
      tm.yday < MonthsLeft(0, MonthTable(IsLeapYear(tm.year + 1900)))
  {
    var yd := FindYear(days, 1970);
    FromDaysYear(days, seconds, dst);
    MonthTableTotal(IsLeapYear(yd.year));
  }

  /** ...and its month and day of the month from the month search over the
      day of the year. */
  lemma FromDaysMonth(days: nat, seconds: int, dst: int)
    ensures var yd := FindYear(days, 1970);
      var mt := MonthTable(IsLeapYear(yd.year));
      && yd.yday < MonthsLeft(0, mt)
      && var tm := FromDays(days, seconds, dst);
         FindMonth(yd.yday, 0, mt) == MonthDay(tm.mon, tm.mday - 1)
  {
    var yd := FindYear(days, 1970);
    MonthTableTotal(IsLeapYear(yd.year));
  }

  /** The date fields the searches agree with lie in range and count the
      days they were found from. */
  lemma SearchedDate(days: nat, seconds: int, tm: Tm)
    requires Searched(days, seconds, tm)
    ensures var mt := MonthTable(IsLeapYear(tm.year + 1900));
      && 1970 <= tm.year + 1900 && 0 <= tm.mon < 12 && 1 <= tm.mday <= mt[tm.mon]
      && tm.yday == DaysBeforeMonth(tm.mon, mt) + tm.mday - 1
      && tm.yday < YearLength(tm.year + 1900)
      && DayNumber(tm) == days
  {
    var year := tm.year + 1900;
    var mt := MonthTable(IsLeapYear(year));
    FindYearSums(days, 1970);
    FindMonthSums(tm.yday, 0, mt);
  }

  /** Fields the searches agree with are well-formed and add back up to the
      day count and the second of the day. */
  lemma SearchedWellFormed(days: nat, seconds: int, tm: Tm)
    requires 0 <= seconds < SECS_DAY && Searched(days, seconds, tm)
    ensures WellFormed(tm) && DayNumber(tm) == days && SecondOfDay(tm) == seconds
    ensures tm.yday < YearLength(tm.year + 1900)
  {
    SearchedDate(days, seconds, tm);
    SplitSecondOfDay(seconds);
  }

  /** The loops of nolocks_localtime, as written in C: the year loop
      mutates `days` and the year, the month loop walks a local copy of the
      month table whose February entry was bumped for leap years. */
  method NoLocksLocaltime(t: int, tz: int, dst: int) returns (tm: Tm)
    requires Adjusted(t, tz, dst) >= 0
    ensures tm == Decompose(t, tz, dst)
  {
    var time := t;
    time := time - tz;
    time := time + 3600 * dst;
    assert time == Adjusted(t, tz, dst);
    var days: int := time / SECS_DAY;
    var seconds := time % SECS_DAY;
    ghost var total := days;

    var hour := seconds / SECS_HOUR;
    var min := (seconds % SECS_HOUR) / SECS_MIN;
    var sec := (seconds % SECS_HOUR) % SECS_MIN;
    var wday := (days + 4) % 7;

    var year := 1970;
    while true
      invariant 0 <= days
      invariant FindYear(days, year) == FindYear(total, 1970)
      decreases days
    {
      var daysThisYear := 365 + if IsLeapYear(year) then 1 else 0;
      if daysThisYear > days {
        break;
      }
      days := days - daysThisYear;
      year := year + 1;
    }
    var yday := days;

    var mdays := new int[12] [31, 28, 31, 30, 31, 30, 31, 31, 30, 31, 30, 31];
    assert mdays[..] == MDAYS;
    var leap := IsLeapYear(year);
    mdays[1] := mdays[1] + if leap then 1 else 0;
    ghost var mt := MonthTable(leap);
    assert mdays[..] == mt;
    MonthTableTotal(leap);

    var mon := 0;
    while days >= mdays[mon]
      invariant 0 <= mon < 12 && 0 <= days
      invariant mdays[..] == mt
      invariant days < MonthsLeft(mon, mt)
      invariant FindMonth(days, mon, mt) == FindMonth(yday, 0, mt)
      decreases 12 - mon
    {
      assert mdays[mon] == mt[mon];
      FindMonthStep(days, mon, mt);
      days := days - mdays[mon];
      mon := mon + 1;
    }

    tm := Tm(sec := sec, min := min, hour := hour,
             mday := days + 1, mon := mon, year := year - 1900,
             wday := wday, yday := yday, isdst := dst);
    FromDaysOf(total, seconds, dst, year, yday, mon, days);
  }

  /** The inverse of Decompose: the number of seconds since the epoch that
      the calendar fields denote, counted as whole days and the seconds into
      the last day. */
  function ToTimestamp(tm: Tm): int
    requires 1970 <= tm.year + 1900 && 0 <= tm.mon < 12
  {
    DayNumber(tm) * SECS_DAY + SecondOfDay(tm)
  }

  /** Whole days since the epoch: whole years, whole months, then the days
      of the month before this one. */
  function DayNumber(tm: Tm): int
    requires 1970 <= tm.year + 1900 && 0 <= tm.mon < 12
  {
    DaysBetween(1970, tm.year + 1900) + DaysBeforeMonth(tm.mon, MonthTable(IsLeapYear(tm.year + 1900))) + tm.mday - 1
  }

  function SecondOfDay(tm: Tm): int {
    tm.hour * SECS_HOUR + tm.min * SECS_MIN + tm.sec
  }

  /** A `struct tm` whose every field lies in its range and agrees with the
      others, as nolocks_localtime produces them. */
  predicate WellFormed(tm: Tm) {
    && 1970 <= tm.year + 1900
    && 0 <= tm.mon < 12
    && 1 <= tm.mday <= MonthTable(IsLeapYear(tm.year + 1900))[tm.mon]
    && 0 <= tm.hour < 24 && 0 <= tm.min < 60 && 0 <= tm.sec < 60
    && tm.yday == DaysBeforeMonth(tm.mon, MonthTable(IsLeapYear(tm.year + 1900))) + tm.mday - 1
    && tm.wday == Weekday(DayNumber(tm))
  }

  /** The year loop consumes exactly the year lengths it skips. */
  lemma {:induction false} FindYearSums(days: nat, year: int)
    ensures var r := FindYear(days, year); days == DaysBetween(year, r.year) + r.yday
    decreases days
  {
    if YearLength(year) <= days {
      FindYearSums(days - YearLength(year), year + 1);
    }
  }

  /** The month loop consumes exactly the month lengths it skips. */
  lemma {:induction false} FindMonthSums(days: nat, mon: int, mdays: seq<int>)
    requires IsMonthTable(mdays) && 0 <= mon < 12 && days < MonthsLeft(mon, mdays)
    ensures var r := FindMonth(days, mon, mdays);
      DaysBeforeMonth(mon, mdays) + days == DaysBeforeMonth(r.mon, mdays) + r.day
    decreases 12 - mon
  {
    if days >= mdays[mon] {
      FindMonthSums(days - mdays[mon], mon + 1, mdays);
    }
  }

  /** The fields FromDays computes are well-formed and add back up to the
      day count and the second of the day they were computed from. */
  lemma FromDaysFields(days: nat, seconds: int, dst: int)
    requires 0 <= seconds < SECS_DAY
    ensures var tm := FromDays(days, seconds, dst);
      && WellFormed(tm)
      && DayNumber(tm) == days && SecondOfDay(tm) == seconds
      && tm.yday < YearLength(tm.year + 1900) && tm.isdst == dst
  {
    var tm := FromDays(days, seconds, dst);
    FromDaysSearched(days, seconds, dst);
    SearchedWellFormed(days, seconds, tm);
    assert tm.isdst == dst;
  }

  /** Hours, minutes and seconds lie in their ranges and spell out the
      second of the day. */
  lemma SplitSecondOfDay(seconds: int)
    requires 0 <= seconds < SECS_DAY
    ensures var hour, min, sec := seconds / SECS_HOUR, (seconds % SECS_HOUR) / SECS_MIN, (seconds % SECS_HOUR) % SECS_MIN;
      && 0 <= hour < 24 && 0 <= min < 60 && 0 <= sec < 60
      && hour * SECS_HOUR + min * SECS_MIN + sec == seconds
  {
  }

  /** Every field lies in its range, and the fields agree with each other. */
  lemma DecomposeWellFormed(t: int, tz: int, dst: int)
    requires Adjusted(t, tz, dst) >= 0
    ensures var tm := Decompose(t, tz, dst);
      && WellFormed(tm)
      && 0 <= tm.wday < 7
      && 0 <= tm.yday < YearLength(tm.year + 1900)
      && tm.isdst == dst
  {
    var a := Adjusted(t, tz, dst);
    FromDaysFields(a / SECS_DAY, a % SECS_DAY, dst);
  }

  /** The fields count the whole days since the epoch and the seconds into
      the last day of the adjusted time; the weekday counts from a Thursday
      on day 0. */
  lemma DecomposeDays(t: int, tz: int, dst: int)
    requires Adjusted(t, tz, dst) >= 0
    ensures var tm := Decompose(t, tz, dst);
      && 1970 <= tm.year + 1900 && 0 <= tm.mon < 12
      && DayNumber(tm) == Adjusted(t, tz, dst) / SECS_DAY
      && SecondOfDay(tm) == Adjusted(t, tz, dst) % SECS_DAY
      && tm.wday == Weekday(Adjusted(t, tz, dst) / SECS_DAY)
  {
    var a := Adjusted(t, tz, dst);
    FromDaysFields(a / SECS_DAY, a % SECS_DAY, dst);
  }

  /** Reconstructing the timestamp from the fields gives back the adjusted
      input. */
  lemma DecomposeRoundTrip(t: int, tz: int, dst: int)
    requires Adjusted(t, tz, dst) >= 0
    ensures var tm := Decompose(t, tz, dst);
      1970 <= tm.year + 1900 && 0 <= tm.mon < 12 && ToTimestamp(tm) == Adjusted(t, tz, dst)
  {
    var a := Adjusted(t, tz, dst);
    DecomposeDays(t, tz, dst);
    Euclid(a, SECS_DAY);
  }

  lemma Euclid(a: int, n: int)
    requires n > 0
    ensures a == (a / n) * n + a % n
  {
  }

  /** Skipping whole years from `start` lands on the year the days came from. */
  lemma {:induction false} FindYearOfSum(start: int, year: int, d: nat)
    requires start <= year && d < YearLength(year)
    ensures FindYear(DaysBetween(start, year) + d, start) == YearDay(year, d)
    decreases year - start
  {
    if start < year {
      FindYearOfSum(start + 1, year, d);
    }
  }

  /** Skipping whole months from `start` lands on the month the days came from. */
  lemma {:induction false} FindMonthOfSum(start: int, mon: int, d: nat, mdays: seq<int>)
    requires IsMonthTable(mdays) && 0 <= start <= mon < 12 && d < mdays[mon]
    ensures DaysBeforeMonth(start, mdays) <= DaysBeforeMonth(mon, mdays)
    ensures DaysBeforeMonth(mon, mdays) - DaysBeforeMonth(start, mdays) + d < MonthsLeft(start, mdays)
    ensures FindMonth(DaysBeforeMonth(mon, mdays) - DaysBeforeMonth(start, mdays) + d, start, mdays) == MonthDay(mon, d)
    decreases mon - start
  {
    if start < mon {
      FindMonthOfSum(start + 1, mon, d, mdays);
    } else {
      assert MonthsLeft(mon, mdays) == mdays[mon] + MonthsLeft(mon + 1, mdays);
    }
  }

  lemma DivMod(q: int, r: int, n: int)
    requires n in {SECS_MIN, SECS_HOUR, SECS_DAY} && 0 <= r < n
    ensures (q * n + r) / n == q && (q * n + r) % n == r
  {
  }

  /** The other direction of the round trip: for any timezone, decomposing
      the timestamp whose adjusted time is that of well-formed fields gives
      back those fields, daylight-saving flag included. */
  lemma DecomposeOfTimestamp(tm: Tm, tz: int)
    requires WellFormed(tm)
    ensures var t := ToTimestamp(tm) + tz - 3600 * tm.isdst;
      Adjusted(t, tz, tm.isdst) == ToTimestamp(tm) >= 0
      && Decompose(t, tz, tm.isdst) == tm
  {
    var ts := ToTimestamp(tm);
    assert Adjusted(ts + tz - 3600 * tm.isdst, tz, tm.isdst) == ts;
    DivMod(DayNumber(tm), SecondOfDay(tm), SECS_DAY);
    FromDaysOfFields(tm);
  }

  /** The date search finds the date of well-formed fields from their day
      number. */
  lemma FromDaysOfFields(tm: Tm)
    requires WellFormed(tm)
    ensures FromDays(DayNumber(tm), SecondOfDay(tm), tm.isdst) == tm
  {
    YearOfFields(tm);
    MonthOfFields(tm);
    TimeOfFields(tm);
    FromDaysIs(DayNumber(tm), SecondOfDay(tm), tm);
  }

  lemma MonthOfFields(tm: Tm)
    requires WellFormed(tm)
    ensures var mdays := MonthTable(IsLeapYear(tm.year + 1900));
      tm.yday < MonthsLeft(0, mdays) && FindMonth(tm.yday, 0, mdays) == MonthDay(tm.mon, tm.mday - 1)
  {
    MonthOfDay(tm.yday, tm.mon, tm.mday - 1, MonthTable(IsLeapYear(tm.year + 1900)));
  }

  lemma MonthOfDay(yday: nat, mon: int, d: nat, mdays: seq<int>)
    requires IsMonthTable(mdays) && 0 <= mon < 12 && d < mdays[mon]
    requires yday == DaysBeforeMonth(mon, mdays) + d
    ensures yday < MonthsLeft(0, mdays) && FindMonth(yday, 0, mdays) == MonthDay(mon, d)
  {
    FindMonthOfSum(0, mon, d, mdays);
  }

  /** The day number of well-formed fields is the days of the years before
      plus the day of the year, which lies inside the year. */
  lemma DayNumberOfFields(tm: Tm)
    requires WellFormed(tm)
    ensures tm.yday < YearLength(tm.year + 1900)
    ensures DayNumber(tm) == DaysBetween(1970, tm.year + 1900) + tm.yday
  {
    var year := tm.year + 1900;
    MonthsSplit(tm.mon, MonthTable(IsLeapYear(year)));
    MonthTableTotal(IsLeapYear(year));
  }

  lemma YearOfFields(tm: Tm)
    requires WellFormed(tm)
    ensures FindYear(DayNumber(tm), 1970) == YearDay(tm.year + 1900, tm.yday)
  {
    DayNumberOfFields(tm);
    FindYearOfSum(1970, tm.year + 1900, tm.yday);
  }

  lemma TimeOfFields(tm: Tm)
    requires 0 <= tm.hour < 24 && 0 <= tm.min < 60 && 0 <= tm.sec < 60
    ensures var secs := SecondOfDay(tm);
      && secs / SECS_HOUR == tm.hour
      && (secs % SECS_HOUR) / SECS_MIN == tm.min
      && (secs % SECS_HOUR) % SECS_MIN == tm.sec
  {
    DivMod(tm.hour, tm.min * SECS_MIN + tm.sec, SECS_HOUR);
    DivMod(tm.min, tm.sec, SECS_MIN);
  }

  /** Timestamp 0 is Thursday 1 January 1970, 00:00:00. */
  lemma EpochIsThursday()
    ensures Decompose(0, 0, 0) == Tm(sec := 0, min := 0, hour := 0, mday := 1, mon := 0,
                                     year := 70, wday := 4, yday := 0, isdst := 0)
  {
    var tm := Tm(sec := 0, min := 0, hour := 0, mday := 1, mon := 0,
                 year := 70, wday := 4, yday := 0, isdst := 0);
    assert ToTimestamp(tm) == 0;
    DecomposeOfTimestamp(tm, 0);
  }

  /** 31536000 seconds (365 days) after the epoch is 1 January 1971: 1970 is
      not a leap year. */
  lemma FirstDayOf1971()
    ensures Decompose(31536000, 0, 0) == Tm(sec := 0, min := 0, hour := 0, mday := 1, mon := 0,
                                            year := 71, wday := 5, yday := 0, isdst := 0)
  {
    var tm := Tm(sec := 0, min := 0, hour := 0, mday := 1, mon := 0,
                 year := 71, wday := 5, yday := 0, isdst := 0);
    assert ToTimestamp(tm) == 31536000;
    DecomposeOfTimestamp(tm, 0);
  }

  /** 951782400 is 29 February 2000, a Tuesday: 2000 is a leap year because
      it is divisible by 400. */
  lemma LeapDayOf2000()
    ensures IsLeapYear(2000) && !IsLeapYear(1900)
    ensures Decompose(951782400, 0, 0) == Tm(sec := 0, min := 0, hour := 0, mday := 29, mon := 1,
                                             year := 100, wday := 2, yday := 59, isdst := 0)
  {
    var tm := Tm(sec := 0, min := 0, hour := 0, mday := 29, mon := 1,
                 year := 100, wday := 2, yday := 59, isdst := 0);
    DaysSinceEpoch(2000);
    assert ToTimestamp(tm) == 951782400;
    DecomposeOfTimestamp(tm, 0);
  }
}
