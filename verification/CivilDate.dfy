// The civil date of a Unix timestamp (crates/core/src/model.rs) against the Gregorian
// calendar. Divisions are by positive constants, so Dafny's `/` is both div_euclid and,
// on the unsigned values, Rust's `/`.
module CivilDate {
  datatype Date = Date(year: int, month: int, day: int)

  const SECONDS_PER_DAY := 86_400
  const EPOCH_SHIFT := 719_468
  const ERA := 146_097

  // ---- the calendar ----

  predicate Leap(year: int) {
    year % 4 == 0 && (year % 100 != 0 || year % 400 == 0)
  }

  function DaysInMonth(year: int, month: int): int {
    if month == 2 then if Leap(year) then 29 else 28
    else if month in {4, 6, 9, 11} then 30
    else 31
  }

  predicate ValidDate(date: Date) {
    1 <= date.month <= 12 && 1 <= date.day <= DaysInMonth(date.year, date.month)
  }

  function NextDay(date: Date): Date {
    if date.day < DaysInMonth(date.year, date.month) then date.(day := date.day + 1)
    else if date.month < 12 then Date(date.year, date.month + 1, 1)
    else Date(date.year + 1, 1, 1)
  }

  function Advance(date: Date, days: nat): Date {
    if days == 0 then date else NextDay(Advance(date, days - 1))
  }

  // ---- ymd_utc ----

  // `as i32`
  function AsI32(y: int): int {
    (y + 0x8000_0000) % 0x1_0000_0000 - 0x8000_0000
  }

  predicate FitsI32(y: int) {
    -0x8000_0000 <= y < 0x8000_0000
  }

  function Shifted(unix: int): int {
    unix / SECONDS_PER_DAY + EPOCH_SHIFT
  }

  function Era(z: int): int {
    (if z >= 0 then z else z - 146_096) / ERA
  }

  function DayOfEra(z: int): int {
    z - Era(z) * ERA
  }

  function YearOfEra(doe: int): int {
    (doe - doe / 1460 + doe / 36_524 - doe / 146_096) / 365
  }

  function DayOfYear(doe: int): int {
    doe - (365 * YearOfEra(doe) + YearOfEra(doe) / 4 - YearOfEra(doe) / 100)
  }

  function MonthIndex(doy: int): int {
    (5 * doy + 2) / 153
  }

  // The year before it is truncated to 32 bits.
  function FullYear(z: int): int {
    var doe := DayOfEra(z);
    YearOfEra(doe) + Era(z) * 400 + if MonthIndex(DayOfYear(doe)) < 10 then 0 else 1
  }

  function YmdUtc(unix: int): Date {
    var z := Shifted(unix);
    var doy := DayOfYear(DayOfEra(z));
    var mp := MonthIndex(doy);
    Date(AsI32(FullYear(z)), if mp < 10 then mp + 3 else mp - 9, doy - (153 * mp + 2) / 5 + 1)
  }

  // ---- counting days ----

  function DaysBeforeYear(year: int): int {
    var y := year - 1;
    365 * y + y / 4 - y / 100 + y / 400
  }

  function DaysBeforeMonth(year: int, month: int): int {
    if month <= 1 then 0 else DaysBeforeMonth(year, month - 1) + DaysInMonth(year, month - 1)
  }

  // Days from 1970-01-01.
  function DayNumber(date: Date): int {
    DaysBeforeYear(date.year) + DaysBeforeMonth(date.year, date.month) + date.day - 1 - 719_162
  }

  lemma YearLength(year: int)
    ensures DaysBeforeYear(year + 1) == DaysBeforeYear(year) + if Leap(year) then 366 else 365
  {
    NextMultiple4(year);
    NextMultiple100(year);
    NextMultiple400(year);
    MultiplesNest(year);
  }

  lemma NextMultiple4(year: int)
    ensures year / 4 == (year - 1) / 4 + if year % 4 == 0 then 1 else 0
  {
  }

  lemma NextMultiple100(year: int)
    ensures year / 100 == (year - 1) / 100 + if year % 100 == 0 then 1 else 0
  {
  }

  lemma NextMultiple400(year: int)
    ensures year / 400 == (year - 1) / 400 + if year % 400 == 0 then 1 else 0
  {
  }

  lemma MultiplesNest(year: int)
    ensures year % 400 == 0 ==> year % 100 == 0
    ensures year % 100 == 0 ==> year % 4 == 0
  {
  }

  lemma MonthTable(year: int, month: int)
    requires 1 <= month <= 13
    ensures DaysBeforeMonth(year, month) ==
            [0, 31, 59, 90, 120, 151, 181, 212, 243, 273, 304, 334, 365][month - 1]
            + if month > 2 && Leap(year) then 1 else 0
  {
    if month > 1 {
      MonthTable(year, month - 1);
    }
  }

  // The next day is valid and counts one more.
  lemma NextDayCounts(date: Date)
    requires ValidDate(date)
    ensures ValidDate(NextDay(date)) && DayNumber(NextDay(date)) == DayNumber(date) + 1
  {
    if date.month == 12 {
      YearLength(date.year);
      MonthTable(date.year, 13);
    }
  }

  lemma {:induction false} YearsGrow(y: int, z: int)
    requires y < z
    ensures DaysBeforeYear(y) + 365 <= DaysBeforeYear(z)
    decreases z - y
  {
    YearLength(z - 1);
    if y < z - 1 {
      YearsGrow(y, z - 1);
    }
  }

  // Where a day sits in its year.
  lemma DayWithinYear(date: Date)
    requires ValidDate(date)
    ensures 0 <= DayNumber(date) - (DaysBeforeYear(date.year) - 719_162) <= if Leap(date.year) then 365 else 364
  {
    MonthTable(date.year, date.month);
    MonthTable(date.year, date.month + 1);
  }

  lemma SameYearInjective(a: Date, b: Date)
    requires ValidDate(a) && ValidDate(b) && a.year == b.year && DayNumber(a) == DayNumber(b)
    ensures a == b
  {
    MonthTable(a.year, a.month);
    MonthTable(a.year, a.month + 1);
    MonthTable(a.year, b.month);
    MonthTable(a.year, b.month + 1);
  }

  // No two dates count the same.
  lemma DayNumberInjective(a: Date, b: Date)
    requires ValidDate(a) && ValidDate(b) && DayNumber(a) == DayNumber(b)
    ensures a == b
  {
    hide DaysInMonth, DaysBeforeMonth, DaysBeforeYear;
    DayWithinYear(a);
    DayWithinYear(b);
    YearLength(a.year);
    YearLength(b.year);
    if a.year + 1 < b.year {
      YearsGrow(a.year + 1, b.year);
    } else if b.year + 1 < a.year {
      YearsGrow(b.year + 1, a.year);
    }
    SameYearInjective(a, b);
  }

  // ---- the arithmetic of one era ----

  lemma EraOf(z: int)
    ensures z >= 0 ==> 0 <= DayOfEra(z) < ERA
    ensures z < 0 && z % ERA == ERA - 1 ==> DayOfEra(z) == ERA - 1
    ensures z < 0 && z % ERA != ERA - 1 ==> ERA <= DayOfEra(z) < 2 * ERA - 1
  {
  }

  // A day of a double era as centuries, four-year cycles and a rest. The cycles are
  // 1461 days, except that the last cycle of a century may be short.
  ghost predicate Split(doe: int, c: int, q: int, s: int) {
    doe == 36_524 * c + 1461 * q + s && 0 <= c <= 7 && 0 <= q <= 24 && 0 <= s <= 1460
    && (q == 24 && c != 3 && c != 7 ==> s < 1460)
  }

  lemma Splits(doe: int) returns (c: int, q: int, s: int)
    requires 0 <= doe < 2 * ERA - 1
    ensures Split(doe, c, q, s) && (doe < ERA <==> c < 4)
    ensures doe >= ERA ==> c > 4 || q > 0 || s > 0
  {
    c := if doe < ERA then if doe == ERA - 1 then 3 else doe / 36_524
         else if doe == 2 * ERA - 2 then 7 else doe / 36_524;
    var r := doe - 36_524 * c;
    q := r / 1461;
    s := r - 1461 * q;
  }

  // The divisions of ymd_utc in terms of the split.
  lemma Quotients(doe: int, c: int, q: int, s: int)
    requires Split(doe, c, q, s)
    ensures doe / 1460 == 25 * c + q + if 24 * c + q + s >= 1460 then 1 else 0
    ensures doe / 36_524 - doe / 146_096 == if c < 4 then c else c - 1
  {
    assert doe == 1460 * (25 * c + q) + (24 * c + q + s);
  }

  lemma YearOfFirstEra(doe: int, c: int, q: int, s: int)
    requires Split(doe, c, q, s) && c < 4
    ensures var a := if s == 1460 then 3 else s / 365;
            YearOfEra(doe) == 100 * c + 4 * q + a && DayOfYear(doe) == s - 365 * a
    ensures 0 <= YearOfEra(doe) < 400
    ensures 0 <= DayOfYear(doe) <= if Leap(YearOfEra(doe) + 1) then 365 else 364
  {
    var a := if s == 1460 then 3 else s / 365;
    YearOfSplit(doe, c, q, s, a);
    YearParts(c, q, a);
    hide YearOfEra, Leap;
  }

  lemma YearOfSplit(doe: int, c: int, q: int, s: int, a: int)
    requires Split(doe, c, q, s) && c < 4 && a == if s == 1460 then 3 else s / 365
    ensures YearOfEra(doe) == 100 * c + 4 * q + a && 0 <= a <= 3
  {
    Quotients(doe, c, q, s);
  }

  lemma YearParts(c: int, q: int, a: int)
    requires 0 <= q <= 24 && 0 <= a <= 3
    ensures (100 * c + 4 * q + a) / 4 == 25 * c + q && (100 * c + 4 * q + a) / 100 == c
  {
  }

  lemma YearOfSecondEra(doe: int, c: int, q: int, s: int)
    requires Split(doe, c, q, s) && c >= 4 && (c > 4 || q > 0 || s > 0)
    ensures 400 <= YearOfEra(doe) < 800 && 1 <= DayOfYear(doe) <= 366
  {
    Quotients(doe, c, q, s);
    var rest := s - 1 - if 24 * c + q + s >= 1460 then 1 else 0;
    var a := rest / 365;
    var y := 100 * c + 4 * q + a;
    assert -1 <= a <= 3;
    assert YearOfEra(doe) == y;
    if a >= 0 {
      assert y / 4 == 25 * c + q && y / 100 == c;
    } else {
      assert y / 4 == 25 * c + q - 1 && y / 100 == if q > 0 then c else c - 1;
    }
  }

  lemma EraFacts(z: int)
    ensures var doe := DayOfEra(z);
            && 0 <= doe < 2 * ERA - 1
            && (YearOfEra(doe) < 400 <==> z >= 0 || z % ERA == ERA - 1)
            && 0 <= YearOfEra(doe) < 800
            && 0 <= DayOfYear(doe) <= 366
            && (z >= 0 ==> DayOfYear(doe) <= if Leap(YearOfEra(doe) + 1) then 365 else 364)
  {
    hide YearOfEra, DayOfYear, DayOfEra;
    EraOf(z);
    var doe := DayOfEra(z);
    var c, q, s := Splits(doe);
    if c < 4 {
      YearOfFirstEra(doe, c, q, s);
    } else {
      YearOfSecondEra(doe, c, q, s);
    }
  }

  // No unsigned subtraction in ymd_utc goes below zero, and the casts to u8 lose
  // nothing, whatever the timestamp.
  lemma NoUnderflow(unix: int)
    ensures var doe := DayOfEra(Shifted(unix));
            var yoe, doy := YearOfEra(doe), DayOfYear(doe);
            var mp := MonthIndex(doy);
            && 0 <= doe < 0x1_0000_0000
            && doe - doe / 1460 >= 0
            && doe - doe / 1460 + doe / 36_524 - doe / 146_096 >= 0
            && 365 * yoe + yoe / 4 - yoe / 100 >= 0
            && doy >= 0
            && doy - (153 * mp + 2) / 5 >= 0
            && (mp >= 10 ==> mp - 9 >= 0)
            && 1 <= YmdUtc(unix).month <= 12 && 1 <= YmdUtc(unix).day <= 31
  {
    hide YearOfEra, DayOfYear, DayOfEra, Era, Shifted;
    EraFacts(Shifted(unix));
    MonthOf(DayOfYear(DayOfEra(Shifted(unix))));
  }

  // The month arithmetic: where a day of the year that starts in March falls.
  lemma MonthOf(doy: int)
    requires 0 <= doy <= 366
    ensures var mp := MonthIndex(doy);
            var first := (153 * mp + 2) / 5;
            && 0 <= mp <= 11
            && first == [0, 31, 61, 92, 122, 153, 184, 214, 245, 275, 306, 337][mp]
            && 0 <= doy - first <= [30, 29, 30, 29, 30, 30, 29, 30, 29, 30, 30, 29][mp]
            && (mp == 11 ==> doy - first <= 29)
  {
  }

  // Day `doy` of the year that starts on the first of March `y`.
  function MarchDate(y: int, doy: int): Date {
    var mp := MonthIndex(doy);
    Date(if mp < 10 then y else y + 1, if mp < 10 then mp + 3 else mp - 9, doy - (153 * mp + 2) / 5 + 1)
  }

  lemma MarchDateCounts(y: int, doy: int)
    requires 0 <= doy <= 366
    ensures DayNumber(MarchDate(y, doy)) == DaysBeforeYear(y + 1) + doy - EPOCH_SHIFT
    ensures doy <= (if Leap(y + 1) then 365 else 364) ==> ValidDate(MarchDate(y, doy))
  {
    hide DaysBeforeYear, Leap, MonthIndex;
    var date := MarchDate(y, doy);
    MonthOf(doy);
    YearLength(y);
    MonthTable(date.year, date.month);
  }

  // The date before its year is cut to 32 bits.
  function FullDate(unix: int): Date {
    YmdUtc(unix).(year := FullYear(Shifted(unix)))
  }

  lemma FullDateIsMarchDate(unix: int)
    ensures var z := Shifted(unix);
            var doe := DayOfEra(z);
            FullDate(unix) == MarchDate(YearOfEra(doe) + Era(z) * 400, DayOfYear(doe))
  {
  }

  lemma FullDateCounts(unix: int)
    ensures var z := Shifted(unix);
            DayNumber(FullDate(unix)) == unix / SECONDS_PER_DAY + if z >= 0 || z % ERA == ERA - 1 then 0 else 1
    ensures Shifted(unix) >= 0 ==> ValidDate(FullDate(unix))
  {
    hide YearOfEra, DayOfEra, DayOfYear, Era, MarchDate, FullDate, DayNumber, ValidDate, DaysBeforeYear, Leap;
    var z := Shifted(unix);
    var doe := DayOfEra(z);
    FullDateIsMarchDate(unix);
    EraFacts(z);
    MarchDateCounts(YearOfEra(doe) + Era(z) * 400, DayOfYear(doe));
    EraDays(YearOfEra(doe), Era(z));
    EraOfDay(z);
    YearStart(doe);
  }

  lemma EraOfDay(z: int)
    ensures DayOfEra(z) == z - Era(z) * ERA
  {
  }

  lemma YearStart(doe: int)
    ensures DayOfYear(doe) == doe - (365 * YearOfEra(doe) + YearOfEra(doe) / 4 - YearOfEra(doe) / 100)
  {
  }

  lemma EraDays(yoe: int, era: int)
    requires 0 <= yoe < 800
    ensures DaysBeforeYear(yoe + era * 400 + 1)
            == 365 * yoe + yoe / 4 - yoe / 100 + (if yoe < 400 then 0 else 1) + era * ERA
    ensures Leap(yoe + era * 400 + 1) == Leap(yoe + 1)
  {
    hide Leap;
    var y := yoe + era * 400;
    assert y / 4 == yoe / 4 + era * 100;
    assert y / 100 == yoe / 100 + era * 4;
    assert y / 400 == yoe / 400 + era;
    LeapRepeats(yoe + 1, era);
  }

  lemma LeapRepeats(y: int, era: int)
    ensures Leap(y + era * 400) == Leap(y)
  {
    Shift4(y, era * 100);
    Shift100(y, era * 4);
    Shift400(y, era);
  }

  lemma Shift4(y: int, k: int)
    ensures (y + 4 * k) % 4 == y % 4
  {
  }

  lemma Shift100(y: int, k: int)
    ensures (y + 100 * k) % 100 == y % 100
  {
  }

  lemma Shift400(y: int, k: int)
    ensures (y + 400 * k) % 400 == y % 400
  {
  }

  // ---- the theorems ----

  // The first second of 0000-03-01, and the first one of a year beyond i32.
  const FIRST := -62_162_035_200
  const LIMIT := 67_767_976_233_532_800

  predicate InRange(unix: int) {
    FIRST <= unix < LIMIT
  }

  // From 0000-03-01 on these are exactly the timestamps whose year fits.
  lemma RangeIsExact(unix: int)
    ensures Shifted(unix) >= 0 <==> unix >= FIRST
    ensures unix >= FIRST ==> (FitsI32(FullYear(Shifted(unix))) <==> unix < LIMIT)
    ensures InRange(unix) <==> -62_162_035_200 <= unix < 67_767_976_233_532_800
  {
    if unix >= FIRST {
      FullDateCounts(unix);
      DayWithinYear(FullDate(unix));
      hide FullYear, Shifted, DayNumber, ValidDate, YmdUtc, DaysBeforeYear;
      LimitDay();
      var y := FullDate(unix).year;
      YearLength(y);
      if y < 0x7fff_ffff {
        YearsGrow(y + 1, 0x8000_0000);
      } else if y > 0x8000_0000 {
        YearsGrow(0x8000_0000, y);
      }
    }
  }

  lemma LimitDay()
    ensures DaysBeforeYear(0x8000_0000) - 719_162 == 784_351_576_777
  {
  }

  lemma RangeIsFull(unix: int)
    requires FitsI32(FullYear(Shifted(unix)))
    ensures YmdUtc(unix) == FullDate(unix)
  {
    hide FullYear, DayOfYear, DayOfEra, MonthIndex, Shifted;
  }

  // In that range the date is a valid one that counts back to its day.
  lemma DateIsValid(unix: int)
    requires InRange(unix)
    ensures ValidDate(YmdUtc(unix)) && DayNumber(YmdUtc(unix)) == unix / SECONDS_PER_DAY
  {
    hide Shifted, FullYear, YmdUtc, ValidDate, DayNumber, FullDate;
    RangeIsExact(unix);
    RangeIsFull(unix);
    FullDateCounts(unix);
  }

  lemma CutYearCounts(date: Date)
    requires 1 <= date.month <= 12 && !FitsI32(date.year)
    ensures var off := DayNumber(date.(year := AsI32(date.year))) - DayNumber(date); off < -2 || off > 2
  {
    hide DaysBeforeYear;
    var cut := AsI32(date.year);
    MonthTable(date.year, date.month);
    MonthTable(cut, date.month);
    if cut < date.year {
      YearsGrow(cut, date.year);
    } else {
      YearsGrow(date.year, cut);
    }
  }

  // Over every timestamp: the date counts back to the day it came from exactly when
  // the year fits i32 and the day is not before 0000-03-01, or is the last of an era.
  lemma DateCountsBackIff(unix: int)
    ensures DayNumber(YmdUtc(unix)) == unix / SECONDS_PER_DAY
            <==> (Shifted(unix) >= 0 || Shifted(unix) % ERA == ERA - 1) && FitsI32(FullYear(Shifted(unix)))
  {
    FullDateCounts(unix);
    NoUnderflow(unix);
    hide Shifted, FullYear, DayNumber, AsI32;
    if FitsI32(FullYear(Shifted(unix))) {
      RangeIsFull(unix);
    } else {
      CutYearCounts(FullDate(unix));
    }
  }

  lemma EpochDate()
    ensures YmdUtc(0) == Date(1970, 1, 1)
  {
    assert Shifted(0) == 719_468 && Era(719_468) == 4 && DayOfEra(719_468) == 135_080;
    assert YearOfEra(135_080) == 369 && DayOfYear(135_080) == 306 && MonthIndex(306) == 10;
    hide Shifted, Era, DayOfEra, YearOfEra, DayOfYear, MonthIndex;
    assert FullYear(719_468) == 1970 && AsI32(1970) == 1970;
  }

  lemma {:induction false} AdvanceCounts(date: Date, days: nat)
    requires ValidDate(date)
    ensures ValidDate(Advance(date, days)) && DayNumber(Advance(date, days)) == DayNumber(date) + days
  {
    if days > 0 {
      AdvanceCounts(date, days - 1);
      NextDayCounts(Advance(date, days - 1));
    }
  }

  // The dates of two timestamps are as many calendar days apart as their days are.
  lemma DatesFollowTheCalendar(from: int, to: int)
    requires InRange(from) && InRange(to) && from / SECONDS_PER_DAY <= to / SECONDS_PER_DAY
    ensures YmdUtc(to) == Advance(YmdUtc(from), to / SECONDS_PER_DAY - from / SECONDS_PER_DAY)
  {
    hide InRange, YmdUtc, DayNumber, ValidDate;
    DateIsValid(from);
    DateIsValid(to);
    AdvanceCounts(YmdUtc(from), to / SECONDS_PER_DAY - from / SECONDS_PER_DAY);
    DayNumberInjective(YmdUtc(to), Advance(YmdUtc(from), to / SECONDS_PER_DAY - from / SECONDS_PER_DAY));
  }

  lemma NextDayFollows(unix: int)
    requires InRange(unix) && InRange(unix + SECONDS_PER_DAY)
    ensures YmdUtc(unix + SECONDS_PER_DAY) == NextDay(YmdUtc(unix))
  {
    hide InRange, YmdUtc, NextDay;
    assert (unix + SECONDS_PER_DAY) / SECONDS_PER_DAY == unix / SECONDS_PER_DAY + 1;
    DatesFollowTheCalendar(unix, unix + SECONDS_PER_DAY);
    assert Advance(YmdUtc(unix), 1) == NextDay(Advance(YmdUtc(unix), 0));
  }

  // ---- group_label ----

  datatype Group = Today | Yesterday | ThisWeek | Older

  function GroupLabel(ts: int, now: int): Group {
    var delta := now / SECONDS_PER_DAY - ts / SECONDS_PER_DAY;
    if delta <= 0 then Today
    else if delta == 1 then Yesterday
    else if delta <= 6 then ThisWeek
    else Older
  }

  // The headers say how many calendar days ago the mail is, in UTC.
  lemma GroupCountsCalendarDays(ts: int, now: int)
    requires InRange(ts) && InRange(now)
    ensures GroupLabel(ts, now) == Yesterday <==> YmdUtc(now) == NextDay(YmdUtc(ts))
    ensures GroupLabel(ts, now) == ThisWeek <==> exists n: nat :: 2 <= n <= 6 && YmdUtc(now) == Advance(YmdUtc(ts), n)
    ensures GroupLabel(ts, now) == Older <==> exists n: nat :: n > 6 && YmdUtc(now) == Advance(YmdUtc(ts), n)
    ensures GroupLabel(ts, now) == Today <==> exists n: nat :: YmdUtc(ts) == Advance(YmdUtc(now), n)
  {
    hide InRange, YmdUtc, NextDay, DayNumber, ValidDate;
    var delta := now / SECONDS_PER_DAY - ts / SECONDS_PER_DAY;
    DateIsValid(ts);
    DateIsValid(now);
    forall n: nat
      ensures DayNumber(Advance(YmdUtc(ts), n)) == DayNumber(YmdUtc(ts)) + n
      ensures DayNumber(Advance(YmdUtc(now), n)) == DayNumber(YmdUtc(now)) + n
    {
      AdvanceCounts(YmdUtc(ts), n);
      AdvanceCounts(YmdUtc(now), n);
    }
    if delta >= 0 {
      DatesFollowTheCalendar(ts, now);
    }
    if delta <= 0 {
      DatesFollowTheCalendar(now, ts);
    }
    assert Advance(YmdUtc(ts), 1) == NextDay(Advance(YmdUtc(ts), 0));
  }
}