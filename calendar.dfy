/**
 * Calendar dates as day numbers, with the proleptic Gregorian calendar that
 * pandas uses for its periods.  A date is the number of days since
 * 1970-01-01 (the epoch pandas timestamps count from); the civil
 * (year, month, day) form is only needed to find the first day of a month.
 *
 * Internally the conversion counts in "computational" years that start on
 * 1 March, so that the leap day is the last day of its year: an era of 400
 * such years has 146097 days, split into four centuries (the last one a day
 * longer), each into 4-year blocks of 1461 days, each into years of 365 days
 * (the last one a day longer).  Every step is a division by a constant, so the
 * proofs below stay within linear arithmetic.
 */
module Calendar {

  /** Days since 1970-01-01; negative before it. */
  type Day = int

  /** A proleptic Gregorian calendar date. */
  datatype Civil = Civil(year: int, month: int, day: int)

  predicate IsLeapYear(y: int) {
    y % 4 == 0 && (y % 100 != 0 || y % 400 == 0)
  }

  function DaysInMonth(year: int, month: int): (n: int)
    requires 1 <= month <= 12
    ensures 28 <= n <= 31
  {
    if month == 2 then (if IsLeapYear(year) then 29 else 28)
    else if month == 4 || month == 6 || month == 9 || month == 11 then 30
    else 31
  }

  predicate Valid(c: Civil) {
    1 <= c.month <= 12 && 1 <= c.day <= DaysInMonth(c.year, c.month)
  }

  /** Computational year `yoe` of an era holds the February of civil year yoe + 1. */
  predicate LongYear(yoe: int) {
    IsLeapYear(yoe + 1)
  }

  function YearLength(yoe: int): int {
    if LongYear(yoe) then 366 else 365
  }

  /** Days from the start of an era to the start of its computational year `yoe`. */
  function DaysBeforeYear(yoe: int): int {
    365 * yoe + yoe / 4 - yoe / 100
  }

  /** Days from 1 March to the first day of month index `mp` (0 is March, 11 is February). */
  function DaysBeforeMonth(mp: int): int {
    (153 * mp + 2) / 5
  }

  function MonthLength(mp: int, long: bool): int {
    if mp == 11 then (if long then 29 else 28) else DaysBeforeMonth(mp + 1) - DaysBeforeMonth(mp)
  }

  /** The month index that day `doy` of a computational year falls in. */
  function MonthOfYear(doy: int): int {
    (5 * doy + 2) / 153
  }

  /** The civil month number of month index `mp`. */
  function CivilMonth(mp: int): int {
    if mp < 10 then mp + 3 else mp - 9
  }

  /** Splits a day of an era into its computational year and the day within that year. */
  function YearOfEra(doe: int): (int, int) {
    var c := if doe / 36524 < 3 then doe / 36524 else 3;
    var doc := doe - 36524 * c;
    var q := doc / 1461;
    var doq := doc - 1461 * q;
    var y := if doq / 365 < 3 then doq / 365 else 3;
    (100 * c + 4 * q + y, doq - 365 * y)
  }

  /** The month index (0 is March, 11 is February) of civil month `m`. */
  function MonthIndex(m: int): int {
    if m > 2 then m - 3 else m + 9
  }

  /** The civil date of day `doy` of computational year `yoe` of era `era`. */
  function FromYearDay(era: int, yoe: int, doy: int): Civil {
    var mp := MonthOfYear(doy);
    var m := CivilMonth(mp);
    Civil(400 * era + yoe + (if m <= 2 then 1 else 0), m, doy - DaysBeforeMonth(mp) + 1)
  }

  /** The civil date of day number `z`. */
  function CivilFromDays(z: Day): (c: Civil)
    ensures Valid(c)
  {
    var s := z + 719468;  // days since 0000-03-01
    var (yoe, doy) := YearOfEra(s % 146097);
    YearOfEraCorrect(s % 146097);
    FromYearDayCorrect(s / 146097, yoe, doy);
    FromYearDay(s / 146097, yoe, doy)
  }

  /** The day number of civil date `c`. */
  function DaysFromCivil(c: Civil): Day {
    var y := c.year - (if c.month <= 2 then 1 else 0);
    var mp := MonthIndex(c.month);
    146097 * (y / 400) + DaysBeforeYear(y % 400) + DaysBeforeMonth(mp) + c.day - 1 - 719468
  }

  /** Day of the week, Monday = 0 through Sunday = 6 (1970-01-01 was a Thursday). */
  function Weekday(d: Day): (w: int)
    ensures 0 <= w < 7
  {
    (d + 3) % 7
  }

  /** Start (Monday) of the Monday-to-Sunday week containing `d`. */
  function WeekStart(d: Day): (ws: Day)
    ensures ws <= d <= ws + 6
    ensures Weekday(ws) == 0
  {
    d - Weekday(d)
  }

  /** First day of the civil month containing `d`. */
  function MonthStart(d: Day): (ms: Day)
    ensures ms <= d <= ms + 30
    ensures CivilFromDays(ms) ==
            Civil(CivilFromDays(d).year, CivilFromDays(d).month, 1)
  {
    var c := CivilFromDays(d);
    var first := DaysFromCivil(Civil(c.year, c.month, 1));
    MonthStartCorrect(d, c, first);
    first
  }

  // ---------------------------------------------------------------------------
  // Proofs of the conversion

  lemma LeapShift(era: int, n: int)
    ensures IsLeapYear(400 * era + n) == IsLeapYear(n)
  {
    var x := 400 * era + n;
    assert x % 4 == n % 4 by { ModShift4(100 * era, n); }
    assert x % 100 == n % 100 by { ModShift100(4 * era, n); }
    assert x % 400 == n % 400 by { ModShift400(era, n); }
  }

  lemma ModShift4(k: int, n: int)
    ensures (4 * k + n) % 4 == n % 4
  {
    var x := 4 * k + n;
    assert 4 * (x / 4 - k - n / 4) == n % 4 - x % 4;
  }

  lemma ModShift100(k: int, n: int)
    ensures (100 * k + n) % 100 == n % 100
  {
    var x := 100 * k + n;
    assert 100 * (x / 100 - k - n / 100) == n % 100 - x % 100;
  }

  lemma ModShift400(k: int, n: int)
    ensures (400 * k + n) % 400 == n % 400
  {
    var x := 400 * k + n;
    assert 400 * (x / 400 - k - n / 400) == n % 400 - x % 400;
  }

  lemma DaysBeforeYearSplit(c: int, q: int, y: int)
    requires 0 <= c < 4 && 0 <= q < 25 && 0 <= y < 4
    ensures DaysBeforeYear(100 * c + 4 * q + y) == 36524 * c + 1461 * q + 365 * y
  {
    var yoe := 100 * c + 4 * q + y;
    assert yoe / 4 == 25 * c + q;
    assert yoe / 100 == c;
  }

  /** YearOfEra splits every day of an era into a year of the era and a day of that year. */
  lemma {:induction false} YearOfEraCorrect(doe: int)
    requires 0 <= doe < 146097
    ensures 0 <= YearOfEra(doe).0 < 400
    ensures 0 <= YearOfEra(doe).1 < YearLength(YearOfEra(doe).0)
    ensures DaysBeforeYear(YearOfEra(doe).0) + YearOfEra(doe).1 == doe
  {
    var c := if doe / 36524 < 3 then doe / 36524 else 3;
    var doc := doe - 36524 * c;
    assert 0 <= doc <= 36524;
    assert c < 3 ==> doc < 36524;
    var q := doc / 1461;
    var doq := doc - 1461 * q;
    assert 0 <= q < 25 && 0 <= doq < 1461;
    var y := if doq / 365 < 3 then doq / 365 else 3;
    var doy := doq - 365 * y;
    assert YearOfEra(doe) == (100 * c + 4 * q + y, doy);
    DaysBeforeYearSplit(c, q, y);
    if doy == 365 {
      assert y == 3 && doq == 1460;
      LastDayOfBlock(c, q);
    }
  }

  /** Only the last year of a 4-year block reaches day 365, and it is a leap year unless it
      closes a century other than the era's last. */
  lemma LastDayOfBlock(c: int, q: int)
    requires 0 <= c < 4 && 0 <= q < 25 && (c < 3 ==> 1461 * q + 1460 < 36524)
    ensures LongYear(100 * c + 4 * q + 3)
  {
    var yoe := 100 * c + 4 * q + 3;
    assert (yoe + 1) % 4 == 0 by { assert yoe + 1 == 4 * (25 * c + q + 1); }
    if q == 24 {
      assert c == 3;
      assert yoe + 1 == 400;
    } else {
      assert (yoe + 1) % 100 != 0 by { assert yoe + 1 == 100 * c + 4 * (q + 1); }
    }
  }

  /** Conversely, every year of an era and day of that year come back from YearOfEra. */
  lemma {:induction false} YearOfEraInverse(yoe: int, doy: int)
    requires 0 <= yoe < 400 && 0 <= doy < YearLength(yoe)
    ensures 0 <= DaysBeforeYear(yoe) + doy < 146097
    ensures YearOfEra(DaysBeforeYear(yoe) + doy) == (yoe, doy)
  {
    var c := yoe / 100;
    var q := (yoe % 100) / 4;
    var y := yoe % 4;
    YearBounds(yoe, doy, c, q, y);
    DaysBeforeYearSplit(c, q, y);
    var doe := DaysBeforeYear(yoe) + doy;
    var rest := 1461 * q + 365 * y + doy;
    assert doe == 36524 * c + rest;
    assert (if doe / 36524 < 3 then doe / 36524 else 3) == c by {
      DivSplit36524(doe, c, rest);
    }
    assert rest / 1461 == q by {
      assert 0 <= rest - 1461 * q < 1461;
    }
    var doq := 365 * y + doy;
    assert (if doq / 365 < 3 then doq / 365 else 3) == y by {
      assert y < 3 ==> 0 <= doq - 365 * y < 365;
    }
  }

  lemma DivSplit36524(doe: int, c: int, rest: int)
    requires 0 <= c < 4 && 0 <= rest <= 36524 && (c < 3 ==> rest < 36524)
    requires doe == 36524 * c + rest
    ensures (if doe / 36524 < 3 then doe / 36524 else 3) == c
  {
    if c < 3 {
      assert doe / 36524 == c;
    } else {
      assert doe / 36524 >= 3;
    }
  }

  /** Only the era's last century is 36525 days long, and only a 4-year block's last year 366. */
  lemma YearBounds(yoe: int, doy: int, c: int, q: int, y: int)
    requires 0 <= yoe < 400 && 0 <= doy < YearLength(yoe)
    requires c == yoe / 100 && q == (yoe % 100) / 4 && y == yoe % 4
    ensures yoe == 100 * c + 4 * q + y
    ensures 0 <= c < 4 && 0 <= q < 25 && 0 <= y < 4
    ensures 0 <= 1461 * q + 365 * y + doy <= 36524
    ensures c < 3 ==> 1461 * q + 365 * y + doy < 36524
    ensures y < 3 ==> doy < 365
  {
    if doy == 365 {
      assert LongYear(yoe);
      assert (yoe + 1) % 4 == 0;
      assert y == 3;
      if q == 24 {
        assert (yoe + 1) % 100 == 0 by { assert yoe + 1 == 100 * (c + 1); }
        assert (yoe + 1) % 400 == 0;
        assert c == 3;
      }
    }
  }

  lemma MonthOfYearCorrect(doy: int, long: bool)
    requires 0 <= doy < (if long then 366 else 365)
    ensures 0 <= MonthOfYear(doy) < 12
    ensures DaysBeforeMonth(MonthOfYear(doy)) <= doy
    ensures doy < DaysBeforeMonth(MonthOfYear(doy)) + MonthLength(MonthOfYear(doy), long)
  {
    var mp := MonthOfYear(doy);
    assert 0 <= mp < 12;
    MonthTable(mp);
  }

  lemma MonthOfYearInverse(mp: int, k: int, long: bool)
    requires 0 <= mp < 12 && 0 <= k < MonthLength(mp, long)
    ensures DaysBeforeMonth(mp) + k < (if long then 366 else 365)
    ensures MonthOfYear(DaysBeforeMonth(mp) + k) == mp
  {
    MonthTable(mp);
  }

  /** The first days and lengths of the twelve months, counted from 1 March. */
  lemma MonthTable(mp: int)
    requires 0 <= mp < 12
    ensures DaysBeforeMonth(mp) == [0, 31, 61, 92, 122, 153, 184, 214, 245, 275, 306, 337][mp]
    ensures mp < 11 ==> MonthLength(mp, false) == [31, 30, 31, 30, 31, 31, 30, 31, 30, 31, 31][mp]
    ensures forall doy :: DaysBeforeMonth(mp) <= doy < DaysBeforeMonth(mp) + MonthLength(mp, true) ==> MonthOfYear(doy) == mp
  {
  }

  /** The month table agrees with the civil month lengths, February included. */
  lemma MonthLengthAgrees(mp: int, year: int)
    requires 0 <= mp < 12
    ensures 1 <= CivilMonth(mp) <= 12 && MonthIndex(CivilMonth(mp)) == mp
    ensures DaysInMonth(year, CivilMonth(mp)) == MonthLength(mp, IsLeapYear(year))
  {
  }

  lemma MonthStartCorrect(d: Day, c: Civil, first: Day)
    requires c == CivilFromDays(d) && first == DaysFromCivil(Civil(c.year, c.month, 1))
    ensures first <= d <= first + 30
    ensures CivilFromDays(first) == Civil(c.year, c.month, 1)
  {
    CivilFromDaysCorrect(d);
    assert 1 <= c.day <= 31;
    DaysFromCivilShift(c);
    DaysFromCivilCorrect(Civil(c.year, c.month, 1));
  }

  lemma DaysFromCivilShift(c: Civil)
    ensures DaysFromCivil(Civil(c.year, c.month, 1)) == DaysFromCivil(c) - (c.day - 1)
  {
  }

  lemma DivMod400(era: int, yoe: int)
    requires 0 <= yoe < 400
    ensures (400 * era + yoe) / 400 == era && (400 * era + yoe) % 400 == yoe
  {
    var y := 400 * era + yoe;
    assert 400 * (y / 400 - era) == yoe - y % 400;
  }

  lemma DivModEra(era: int, doe: int)
    requires 0 <= doe < 146097
    ensures (146097 * era + doe) / 146097 == era && (146097 * era + doe) % 146097 == doe
  {
    var s := 146097 * era + doe;
    assert 146097 * (s / 146097 - era) == doe - s % 146097;
  }

  /** A year of an era and a day of that year give a valid civil date, whose day number is theirs. */
  lemma {:induction false} FromYearDayCorrect(era: int, yoe: int, doy: int)
    requires 0 <= yoe < 400 && 0 <= doy < YearLength(yoe)
    ensures Valid(FromYearDay(era, yoe, doy))
    ensures DaysFromCivil(FromYearDay(era, yoe, doy)) ==
            146097 * era + DaysBeforeYear(yoe) + doy - 719468
  {
    var long := LongYear(yoe);
    MonthOfYearCorrect(doy, long);
    var mp := MonthOfYear(doy);
    var m := CivilMonth(mp);
    var year := 400 * era + yoe + (if m <= 2 then 1 else 0);
    var c := FromYearDay(era, yoe, doy);
    assert c == Civil(year, m, doy - DaysBeforeMonth(mp) + 1);
    MonthLengthAgrees(mp, year);
    if m == 2 {
      LeapShift(era, yoe + 1);
    }
    assert DaysInMonth(year, m) == MonthLength(mp, long);
    assert Valid(c);
    DivMod400(era, yoe);
    assert year - (if m <= 2 then 1 else 0) == 400 * era + yoe;
  }

  /** Every day number maps to a valid civil date, and back to itself. */
  lemma {:induction false} CivilFromDaysCorrect(z: Day)
    ensures Valid(CivilFromDays(z))
    ensures DaysFromCivil(CivilFromDays(z)) == z
  {
    var s := z + 719468;
    var era, doe := s / 146097, s % 146097;
    assert s == 146097 * era + doe;
    var (yoe, doy) := YearOfEra(doe);
    assert 0 <= yoe < 400 && 0 <= doy < YearLength(yoe) && DaysBeforeYear(yoe) + doy == doe by {
      YearOfEraCorrect(doe);
    }
    assert CivilFromDays(z) == FromYearDay(era, yoe, doy);
    FromYearDayCorrect(era, yoe, doy);
  }

  lemma FromYearDayOfMonth(era: int, yoe: int, mp: int, k: int)
    requires 0 <= mp < 12 && 0 <= k < MonthLength(mp, LongYear(yoe))
    ensures FromYearDay(era, yoe, DaysBeforeMonth(mp) + k) ==
            Civil(400 * era + yoe + (if CivilMonth(mp) <= 2 then 1 else 0), CivilMonth(mp), k + 1)
  {
    MonthOfYearInverse(mp, k, LongYear(yoe));
  }

  lemma CivilFromEraDay(z: Day, era: int, doe: int, yoe: int, doy: int)
    requires 0 <= doe < 146097 && z == 146097 * era + doe - 719468
    requires YearOfEra(doe) == (yoe, doy)
    ensures CivilFromDays(z) == FromYearDay(era, yoe, doy)
  {
    var s := z + 719468;
    assert s / 146097 == era && s % 146097 == doe by {
      DivModEra(era, doe);
    }
  }

  lemma DaysFromCivilParts(c: Civil, era: int, yoe: int)
    requires 0 <= yoe < 400 && c.year - (if c.month <= 2 then 1 else 0) == 400 * era + yoe
    ensures DaysFromCivil(c) ==
            146097 * era + DaysBeforeYear(yoe) + DaysBeforeMonth(MonthIndex(c.month)) + c.day - 1 - 719468
  {
    DivMod400(era, yoe);
  }

  /** A valid civil date lies within the month table of its computational year. */
  lemma CivilMonthInYear(c: Civil, era: int, yoe: int)
    requires Valid(c) && 0 <= yoe < 400
    requires c.year - (if c.month <= 2 then 1 else 0) == 400 * era + yoe
    ensures CivilMonth(MonthIndex(c.month)) == c.month
    ensures c.day - 1 < MonthLength(MonthIndex(c.month), LongYear(yoe))
  {
    var mp := MonthIndex(c.month);
    MonthLengthAgrees(mp, c.year);
    if c.month == 2 {
      LeapShift(era, yoe + 1);
    }
  }

  /** Every valid civil date maps to a day number that converts back to it. */
  lemma {:induction false} DaysFromCivilCorrect(c: Civil)
    requires Valid(c)
    ensures CivilFromDays(DaysFromCivil(c)) == c
  {
    var y := c.year - (if c.month <= 2 then 1 else 0);
    var era := y / 400;
    var yoe := y % 400;
    CivilMonthInYear(c, era, yoe);
    var mp := MonthIndex(c.month);
    var z := DaysFromCivil(c);
    assert z == 146097 * era + DaysBeforeYear(yoe) + DaysBeforeMonth(mp) + c.day - 1 - 719468 by {
      DaysFromCivilParts(c, era, yoe);
    }
    CivilOfMonthDay(z, era, yoe, mp, c.day - 1);
  }

  lemma YearDayOfMonth(yoe: int, mp: int, k: int)
    requires 0 <= yoe < 400 && 0 <= mp < 12 && 0 <= k < MonthLength(mp, LongYear(yoe))
    ensures 0 <= DaysBeforeYear(yoe) + DaysBeforeMonth(mp) + k < 146097
    ensures YearOfEra(DaysBeforeYear(yoe) + DaysBeforeMonth(mp) + k) == (yoe, DaysBeforeMonth(mp) + k)
  {
    MonthOfYearInverse(mp, k, LongYear(yoe));
    YearOfEraInverse(yoe, DaysBeforeMonth(mp) + k);
  }

  /** The day number of day `k` of month index `mp` of year `yoe` of era `era` converts back to that date. */
  lemma CivilOfMonthDay(z: Day, era: int, yoe: int, mp: int, k: int)
    requires 0 <= yoe < 400 && 0 <= mp < 12 && 0 <= k < MonthLength(mp, LongYear(yoe))
    requires z == 146097 * era + DaysBeforeYear(yoe) + DaysBeforeMonth(mp) + k - 719468
    ensures CivilFromDays(z) ==
            Civil(400 * era + yoe + (if CivilMonth(mp) <= 2 then 1 else 0), CivilMonth(mp), k + 1)
  {
    var doy := DaysBeforeMonth(mp) + k;
    var doe := DaysBeforeYear(yoe) + doy;
    YearDayOfMonth(yoe, mp, k);
    CivilFromEraDay(z, era, doe, yoe, doy);
    FromYearDayOfMonth(era, yoe, mp, k);
  }

  /** Every day of a Monday-to-Sunday week has that week's Monday as its week start. */
  lemma WeekStartOfWeek(monday: Day, k: int)
    requires Weekday(monday) == 0 && 0 <= k < 7
    ensures WeekStart(monday + k) == monday
  {
    assert (monday + k + 3) % 7 == k by {
      assert monday + 3 == 7 * ((monday + 3) / 7);
    }
  }

  /** Dates that share a week start lie in one Monday-to-Sunday week. */
  lemma SameWeekStart(d1: Day, d2: Day)
    ensures WeekStart(d1) == WeekStart(d2) <==> (d1 + 3) / 7 == (d2 + 3) / 7
  {
  }

  /** Dates that share a month start lie in one civil month, and conversely. */
  lemma {:induction false} SameMonthStart(d1: Day, d2: Day)
    ensures MonthStart(d1) == MonthStart(d2) <==>
            CivilFromDays(d1).year == CivilFromDays(d2).year &&
            CivilFromDays(d1).month == CivilFromDays(d2).month
  {
    if MonthStart(d1) == MonthStart(d2) {
      assert CivilFromDays(MonthStart(d1)) == CivilFromDays(MonthStart(d2));
    }
  }

  /** 1 January 1970 is day 0. */
  lemma EpochDay()
    ensures DaysFromCivil(Civil(1970, 1, 1)) == 0
  {
    assert DaysBeforeYear(1969 % 400) == 134774;
    assert DaysBeforeMonth(MonthIndex(1)) == 306;
  }

  /** 1 January 2024, a Monday, is day 19723. */
  lemma Monday2024()
    ensures DaysFromCivil(Civil(2024, 1, 1)) == 19723 && Weekday(19723) == 0
  {
    assert DaysBeforeYear(2023 % 400) == 8400;
    assert DaysBeforeMonth(MonthIndex(1)) == 306;
  }

  /** The epoch, day 0, is 1 January 1970, a Thursday. */
  lemma EpochAnchors()
    ensures CivilFromDays(0) == Civil(1970, 1, 1)
    ensures Weekday(0) == 3
  {
    EpochDay();
    DaysFromCivilCorrect(Civil(1970, 1, 1));
  }
}
