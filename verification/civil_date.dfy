// Days to Gregorian dates without a table of month lengths (crates/render/src/time.rs).
module CivilDate {

  datatype Date = Date(year: int, month: int, day: int)

  function CivilFromDays(days: int): Date {
    var z := days + 719_468;
    var era, doe := z / 146_097, z % 146_097;
    var yoe := YearOfEra(doe);
    var y := yoe + era * 400;
    var doy := doe - (365 * yoe + yoe / 4 - yoe / 100);
    var mp := (5 * doy + 2) / 153;
    var d := doy - (153 * mp + 2) / 5 + 1;
    var m := if mp < 10 then mp + 3 else mp - 9;
    Date(if m <= 2 then y + 1 else y, m, d)
  }

  function YearOfEra(doe: int): int {
    (doe - doe / 1460 + doe / 36_524 - doe / 146_096) / 365
  }

  // ---- the calendar -------------------------------------------------------------------------

  predicate IsLeap(year: int) {
    year % 4 == 0 && (year % 100 != 0 || year % 400 == 0)
  }

  function DaysIn(year: int, month: int): int {
    if month == 2 then (if IsLeap(year) then 29 else 28)
    else if month in {4, 6, 9, 11} then 30
    else 31
  }

  predicate IsDate(t: Date) {
    1 <= t.month <= 12 && 1 <= t.day <= DaysIn(t.year, t.month)
  }

  /** The day after. */
  function NextDay(t: Date): Date {
    if t.day < DaysIn(t.year, t.month) then t.(day := t.day + 1)
    else if t.month < 12 then Date(t.year, t.month + 1, 1)
    else Date(t.year + 1, 1, 1)
  }

  predicate Earlier(s: Date, t: Date) {
    s.year < t.year || (s.year == t.year && (s.month < t.month || (s.month == t.month && s.day < t.day)))
  }

  // ---- counting days ------------------------------------------------------------------------

  /** Days of an era before its `k`-th year, years starting in March. */
  function Start(k: int): int { 365 * k + k / 4 - k / 100 }

  /** Days of a year before the `mp`-th month from March. */
  function MonthStart(mp: int): int { (153 * mp + 2) / 5 }

  /** Days before 1 March of `year`, from 1 March of year 0. */
  function YearStart(year: int): int { 146_097 * (year / 400) + Start(year % 400) }

  function FromMarch(month: int): int { if month > 2 then month - 3 else month + 9 }

  function MarchYear(t: Date): int { if t.month <= 2 then t.year - 1 else t.year }

  function DaysFromCivil(t: Date): int {
    YearStart(MarchYear(t)) + MonthStart(FromMarch(t.month)) + t.day - 1 - 719_468
  }

  /** How long the `k`-th March year of an era is: its last day may be 29 February. */
  function Length(k: int): int { if IsLeap(k + 1) then 366 else 365 }

  lemma NextStart(k: int)
    requires 0 <= k < 399
    ensures Start(k + 1) == Start(k) + Length(k)
  {
    var q, c := k / 4, k / 100;
    assert (k + 1) / 4 == q + (if (k + 1) % 4 == 0 then 1 else 0);
    assert (k + 1) / 100 == c + (if (k + 1) % 100 == 0 then 1 else 0);
    if (k + 1) % 100 == 0 { assert k + 1 == 100 * (c + 1) == 4 * (25 * (c + 1)); }
  }

  lemma {:induction false} StartsAscend(j: int, k: int)
    requires 0 <= j < k <= 399
    ensures Start(j) + Length(j) <= Start(k)
    decreases k - j
  {
    if j + 1 < k { StartsAscend(j, k - 1); NextStart(k - 1); } else { NextStart(j); }
  }

  /** The division chain finds the year a day of an era falls in. */
  lemma YearOfEraIsRight(doe: int)
    requires 0 <= doe < 146_097
    ensures var k := YearOfEra(doe);
            0 <= k < 400 && Start(k) <= doe < Start(k) + Length(k)
  {
    var c, t := doe / 36_524, doe % 36_524;
    if doe < 146_096 {
      var q, u := t / 1461, t % 1461;
      var e := (q + u + 24 * c) / 1460;
      assert 0 <= c <= 3 && 0 <= q <= 24 && 0 <= e <= 1;
      assert doe / 1460 == 25 * c + q + e by { assert doe == 1460 * (25 * c + q) + (24 * c + q + u); }
      var s := (u - e) / 365;
      assert 0 <= s <= 3 && 365 * s <= u && (u < 365 * s + 365 || u == 1460);
      assert YearOfEra(doe) == 100 * c + 4 * q + s;
      YearInEra(c, q, s, u);
    }
  }

  lemma YearInEra(c: int, q: int, s: int, u: int)
    requires 0 <= c <= 3 && 0 <= q <= 24 && 0 <= s <= 3
    requires 365 * s <= u && (u < 365 * s + 365 || (u == 1460 && s == 3 && q < 24))
    ensures var k := 100 * c + 4 * q + s;
            0 <= k < 400 && Start(k) == 36_524 * c + 1461 * q + 365 * s
            && Start(k) <= 36_524 * c + 1461 * q + u < Start(k) + Length(k)
  {
    var k := 100 * c + 4 * q + s;
    assert k / 4 == 25 * c + q && k / 100 == c;
    if u == 1460 {
      assert k + 1 == 4 * (25 * c + q + 1);
      assert (k + 1) % 100 == 4 * q + 4;
    }
  }

  lemma YearIsUnique(doe: int, k: int)
    requires 0 <= doe < 146_097 && 0 <= k < 400 && Start(k) <= doe < Start(k) + Length(k)
    ensures YearOfEra(doe) == k
  {
    hide YearOfEra;
    YearOfEraIsRight(doe);
    var j := YearOfEra(doe);
    if j < k { StartsAscend(j, k); }
    if k < j { StartsAscend(k, j); }
  }

  /** The month formula splits a March year at the ends of its months. */
  lemma MonthIsRight(doy: int)
    requires 0 <= doy <= 365
    ensures var mp := (5 * doy + 2) / 153;
            0 <= mp <= 11 && MonthStart(mp) <= doy && (mp < 11 ==> doy < MonthStart(mp + 1))
  {
  }

  lemma MonthLengths(mp: int, year: int)
    requires 0 <= mp <= 11
    ensures var m := if mp < 10 then mp + 3 else mp - 9;
            && FromMarch(m) == mp && 1 <= m <= 12
            && (mp < 11 ==> MonthStart(mp + 1) - MonthStart(mp) == DaysIn(year, m))
            && (mp == 11 ==> m == 2 && MonthStart(11) == 337)
  {
    assert MonthStart(0) == 0 && MonthStart(1) == 31 && MonthStart(2) == 61 && MonthStart(3) == 92;
    assert MonthStart(4) == 122 && MonthStart(5) == 153 && MonthStart(6) == 184 && MonthStart(7) == 214;
    assert MonthStart(8) == 245 && MonthStart(9) == 275 && MonthStart(10) == 306 && MonthStart(11) == 337;
  }

  lemma {:induction false} MonthIsUnique(doy: int, mp: int)
    requires 0 <= doy <= 365 && 0 <= mp <= 11 && MonthStart(mp) <= doy && (mp < 11 ==> doy < MonthStart(mp + 1))
    ensures (5 * doy + 2) / 153 == mp
  {
  }

  lemma LeapInEra(k: int, era: int)
    ensures IsLeap(k + 400 * era) <==> IsLeap(k)
  {
    SameMod4(k, 100 * era);
    SameMod100(k, 4 * era);
    SameMod400(k, era);
  }

  lemma SameMod4(k: int, n: int)
    ensures (k + 4 * n) % 4 == k % 4
  {
  }

  lemma SameMod100(k: int, n: int)
    ensures (k + 100 * n) % 100 == k % 100
  {
  }

  lemma SameMod400(k: int, n: int)
    ensures (k + 400 * n) % 400 == k % 400
  {
  }

  // ---- main results -------------------------------------------------------------------------

  /** Every day number is a day of some month, leap years included, and counts back to itself. */
  lemma DaysAreDates(z: int)
    ensures IsDate(CivilFromDays(z))
    ensures DaysFromCivil(CivilFromDays(z)) == z
  {
    hide YearOfEra, IsLeap, Start, MonthStart;
    var era, doe := (z + 719_468) / 146_097, (z + 719_468) % 146_097;
    var k := YearOfEra(doe);
    YearOfEraIsRight(doe);
    StartIs(k);
    var doy := doe - Start(k);
    MonthIsRight(doy);
    var mp := (5 * doy + 2) / 153;
    MonthStartIs(mp);
    var t := CivilFromDays(z);
    MonthLengths(mp, t.year);
    assert MarchYear(t) == k + 400 * era && t.day == doy - MonthStart(mp) + 1;
    EraOfYear(k, era);
    LeapInEra(k + 1, era);
  }

  lemma StartIs(k: int)
    ensures Start(k) == 365 * k + k / 4 - k / 100
  {
  }

  lemma MonthStartIs(mp: int)
    ensures MonthStart(mp) == (153 * mp + 2) / 5
  {
  }

  lemma EraOfYear(k: int, era: int)
    requires 0 <= k < 400
    ensures (k + 400 * era) / 400 == era && (k + 400 * era) % 400 == k
  {
  }

  lemma NextYearStart(y: int)
    ensures YearStart(y + 1) == YearStart(y) + if IsLeap(y + 1) then 366 else 365
  {
    var era, k := y / 400, y % 400;
    LeapInEra(k + 1, era);
    if k < 399 {
      NextStart(k);
      assert (y + 1) / 400 == era && (y + 1) % 400 == k + 1;
    } else {
      assert (y + 1) / 400 == era + 1 && (y + 1) % 400 == 0;
    }
  }

  /** The next day counts one more, across months, leap days, years, centuries and eras. */
  lemma NextDayCountsOne(t: Date)
    requires IsDate(t)
    ensures IsDate(NextDay(t)) && DaysFromCivil(NextDay(t)) == DaysFromCivil(t) + 1
  {
    hide YearStart;
    MonthLengths(FromMarch(t.month), t.year);
    if t.day == DaysIn(t.year, t.month) && t.month == 2 {
      NextYearStart(t.year - 1);
      assert MonthStart(0) == 0;
    }
  }

  /** Every date of the calendar is the date of its day number. */
  lemma DatesAreDays(t: Date)
    requires IsDate(t)
    ensures CivilFromDays(DaysFromCivil(t)) == t
  {
    hide YearOfEra, Start, IsLeap;
    var y, mp := MarchYear(t), FromMarch(t.month);
    var era, k := y / 400, y % 400;
    var doy := MonthStart(mp) + t.day - 1;
    var doe := Start(k) + doy;
    MonthLengths(mp, t.year);
    LeapInEra(k + 1, era);
    assert 0 <= doy < Length(k);
    DayInEra(k, doy);
    YearIsUnique(doe, k);
    MonthIsUnique(doy, mp);
    var z := DaysFromCivil(t) + 719_468;
    assert z == 146_097 * era + doe;
    assert z / 146_097 == era && z % 146_097 == doe;
    StartIs(k);
  }

  lemma DayInEra(k: int, doy: int)
    requires 0 <= k < 400 && 0 <= doy < Length(k)
    ensures 0 <= Start(k) + doy < 146_097
  {
    assert Start(399) == 145_731 && Start(0) == 0;
    if k < 399 { StartsAscend(k, 399); }
    if 0 < k { StartsAscend(0, k); }
  }

  lemma Epoch()
    ensures CivilFromDays(0) == Date(1970, 1, 1)
  {
    assert YearOfEra(135_080) == 369;
    assert 719_468 / 146_097 == 4 && 719_468 % 146_097 == 135_080;
  }

  /** Day 0 is 1 January 1970 and each day is followed by its calendar successor, so dates ascend
      strictly and no two day numbers share one. */
  lemma CalendarWalk(z: int)
    ensures CivilFromDays(0) == Date(1970, 1, 1)
    ensures CivilFromDays(z + 1) == NextDay(CivilFromDays(z))
  {
    Epoch();
    hide DaysFromCivil, CivilFromDays, NextDay;
    DaysAreDates(z);
    NextDayCountsOne(CivilFromDays(z));
    DatesAreDays(NextDay(CivilFromDays(z)));
  }

  lemma {:induction false} DatesAscend(z: int, w: int)
    requires z < w
    ensures Earlier(CivilFromDays(z), CivilFromDays(w))
    decreases w - z
  {
    hide CivilFromDays;
    CalendarWalk(w - 1);
    DaysAreDates(w - 1);
    if z < w - 1 { DatesAscend(z, w - 1); }
  }

  // ---- timestamps ---------------------------------------------------------------------------

  datatype Stamp = Stamp(date: Date, hour: int, minute: int, second: int)

  /** Seconds or milliseconds, told apart by magnitude. */
  function Civil(ts: int): Stamp {
    var secs := if ts > 100_000_000_000 then ts / 1000 else ts;
    var rem := secs % 86_400;
    Stamp(CivilFromDays(secs / 86_400), rem / 3600, rem % 3600 / 60, rem % 60)
  }

  /** The stamp is a valid time of a valid day, and is the instant it was made from. */
  lemma StampIsTheInstant(ts: int)
    ensures var t := Civil(ts);
            && IsDate(t.date) && 0 <= t.hour < 24 && 0 <= t.minute < 60 && 0 <= t.second < 60
            && 86_400 * DaysFromCivil(t.date) + 3600 * t.hour + 60 * t.minute + t.second
                 == (if ts > 100_000_000_000 then ts / 1000 else ts)
  {
    hide CivilFromDays, DaysFromCivil;
    var secs := if ts > 100_000_000_000 then ts / 1000 else ts;
    DaysAreDates(secs / 86_400);
  }

  /** From 1973 on both units of the same instant render alike. */
  lemma EitherUnit(secs: int, ms: int)
    requires 100_000_000 < secs <= 100_000_000_000 && 0 <= ms < 1000
    ensures Civil(1000 * secs + ms) == Civil(secs)
  {
    hide CivilFromDays;
    assert (1000 * secs + ms) / 1000 == secs;
  }
}
