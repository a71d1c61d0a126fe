/**
 * The proleptic Gregorian calendar as java.time.LocalDate implements it:
 * a date is identified by its epoch day (day 0 is 1970-01-01), and the
 * civil fields year, month and day-of-month are computed from it.
 * The conversion is defined by counting days, and the two directions are
 * proved to be inverse and order-preserving.
 */
module Calendar {
  import opened Arith

  /** A civil date; only `ValidDate` ones name a real day. */
  datatype Date = Date(year: int, month: int, day: int)

  predicate IsLeapYear(y: int) {
    y % 4 == 0 && (y % 100 != 0 || y % 400 == 0)
  }

  function LengthOfMonth(y: int, m: int): (n: int)
    requires 1 <= m <= 12
    ensures 28 <= n <= 31
    ensures n == 29 <==> m == 2 && IsLeapYear(y)
  {
    if m == 2 then (if IsLeapYear(y) then 29 else 28)
    else if m == 4 || m == 6 || m == 9 || m == 11 then 30
    else 31
  }

  function LengthOfYear(y: int): int {
    if IsLeapYear(y) then 366 else 365
  }

  predicate ValidDate(d: Date) {
    1 <= d.month <= 12 && 1 <= d.day <= LengthOfMonth(d.year, d.month)
  }

  /** Days from 0000-01-01 to the first day of year y (negative for y < 0). */
  function DaysBeforeYear(y: int): int {
    365 * y + (y + 3) / 4 - (y + 99) / 100 + (y + 399) / 400
  }

  /** Days from January 1st to the first day of month m of year y; m == 13 gives the year's length. */
  function DaysBeforeMonth(y: int, m: int): int
    requires 1 <= m <= 13
  {
    var leap := if m > 2 && IsLeapYear(y) then 1 else 0;
    leap +
    (if m == 1 then 0 else if m == 2 then 31 else if m == 3 then 59
     else if m == 4 then 90 else if m == 5 then 120 else if m == 6 then 151
     else if m == 7 then 181 else if m == 8 then 212 else if m == 9 then 243
     else if m == 10 then 273 else if m == 11 then 304 else if m == 12 then 334
     else 365)
  }

  /** DaysBeforeYear(1970): the epoch offset. */
  const EpochOffset: int := 719528

  /** LocalDate.toEpochDay of a civil date. */
  function EpochDay(y: int, m: int, d: int): int
    requires 1 <= m <= 12
  {
    DaysBeforeYear(y) + DaysBeforeMonth(y, m) + d - 1 - EpochOffset
  }

  function EpochDayOf(d: Date): int
    requires 1 <= d.month <= 12
  {
    EpochDay(d.year, d.month, d.day)
  }

  lemma YearStep(y: int)
    ensures DaysBeforeYear(y + 1) == DaysBeforeYear(y) + LengthOfYear(y)
  {
    FloorStep4(y);
    FloorStep100(y);
    FloorStep400(y);
  }

  lemma FloorStep4(y: int)
    ensures (y + 4) / 4 - (y + 3) / 4 == if y % 4 == 0 then 1 else 0
  {
  }

  lemma FloorStep100(y: int)
    ensures (y + 100) / 100 - (y + 99) / 100 == if y % 100 == 0 then 1 else 0
  {
  }

  lemma FloorStep400(y: int)
    ensures (y + 400) / 400 - (y + 399) / 400 == if y % 400 == 0 then 1 else 0
  {
  }

  lemma MonthStep(y: int, m: int)
    requires 1 <= m <= 12
    ensures DaysBeforeMonth(y, m + 1) == DaysBeforeMonth(y, m) + LengthOfMonth(y, m)
  {
  }

  lemma {:induction false} YearMonotone(a: int, b: int)
    requires a <= b
    ensures DaysBeforeYear(a) <= DaysBeforeYear(b)
    decreases b - a
  {
    if a < b {
      YearStep(a);
      YearMonotone(a + 1, b);
    }
  }

  lemma {:induction false} MonthMonotone(y: int, a: int, b: int)
    requires 1 <= a <= b <= 13
    ensures DaysBeforeMonth(y, a) <= DaysBeforeMonth(y, b)
    decreases b - a
  {
    if a < b {
      MonthStep(y, a);
      MonthMonotone(y, a + 1, b);
    }
  }

  /** The year whose days contain day t (counted from 0000-01-01), searched upwards from y. */
  function YearUp(t: int, y: int): (r: int)
    requires DaysBeforeYear(y) <= t
    ensures DaysBeforeYear(r) <= t < DaysBeforeYear(r + 1)
    decreases t - DaysBeforeYear(y)
  {
    YearStep(y);
    if DaysBeforeYear(y + 1) <= t then YearUp(t, y + 1) else y
  }

  /** The year whose days contain day t, searched downwards from y, then upwards. */
  function YearDown(t: int, y: int): (r: int)
    ensures DaysBeforeYear(r) <= t < DaysBeforeYear(r + 1)
    decreases if DaysBeforeYear(y) > t then DaysBeforeYear(y) - t else 0
  {
    YearStep(y - 1);
    if DaysBeforeYear(y) > t then YearDown(t, y - 1) else YearUp(t, y)
  }

  /** The month of year y holding day-of-year doy (0-based), searched upwards from m. */
  function MonthFrom(y: int, doy: int, m: int): (r: int)
    requires 1 <= m <= 12
    requires DaysBeforeMonth(y, m) <= doy < LengthOfYear(y)
    ensures m <= r <= 12
    ensures DaysBeforeMonth(y, r) <= doy < DaysBeforeMonth(y, r + 1)
    decreases 12 - m
  {
    MonthStep(y, m);
    if m < 12 && DaysBeforeMonth(y, m + 1) <= doy then MonthFrom(y, doy, m + 1) else m
  }

  /** The civil date of epoch day z, found by searching the year and then the month. */
  function CivilSearch(z: int): (d: Date)
    ensures ValidDate(d)
    ensures EpochDayOf(d) == z
  {
    var t := z + EpochOffset;
    var y := YearDown(t, t / 366);
    YearStep(y);
    var doy := t - DaysBeforeYear(y);
    var m := MonthFrom(y, doy, 1);
    MonthStep(y, m);
    Date(y, m, doy - DaysBeforeMonth(y, m) + 1)
  }

  /** Every epoch day names exactly one valid date. */
  lemma CivilUnique(z: int)
    ensures exists d: Date :: ValidDate(d) && EpochDayOf(d) == z
    ensures forall a: Date, b: Date :: ValidDate(a) && ValidDate(b) && EpochDayOf(a) == z && EpochDayOf(b) == z ==> a == b
  {
    var w := CivilSearch(z);
    assert ValidDate(w) && EpochDayOf(w) == z;
    forall a: Date, b: Date | ValidDate(a) && ValidDate(b) && EpochDayOf(a) == z && EpochDayOf(b) == z
      ensures a == b
    {
      if DateBefore(a, b) {
        EpochDayStrictlyIncreasing(a, b);
      } else if DateBefore(b, a) {
        EpochDayStrictlyIncreasing(b, a);
      }
    }
  }

  /** LocalDate.ofEpochDay: the one valid date whose epoch day is z. */
  function Civil(z: int): (d: Date)
    ensures ValidDate(d)
    ensures EpochDayOf(d) == z
  {
    CivilUnique(z);
    var d: Date :| ValidDate(d) && EpochDayOf(d) == z; d
  }

  /** Strict lexicographic order on (year, month, day). */
  predicate DateBefore(a: Date, b: Date) {
    a.year < b.year ||
    (a.year == b.year && (a.month < b.month || (a.month == b.month && a.day < b.day)))
  }

  /** Epoch days grow strictly with the civil fields. */
  lemma EpochDayStrictlyIncreasing(a: Date, b: Date)
    requires ValidDate(a) && ValidDate(b) && DateBefore(a, b)
    ensures EpochDayOf(a) < EpochDayOf(b)
  {
    MonthStep(a.year, a.month);
    MonthMonotone(a.year, a.month + 1, 13);
    if a.year < b.year {
      YearStep(a.year);
      YearMonotone(a.year + 1, b.year);
    } else if a.month < b.month {
      MonthMonotone(a.year, a.month + 1, b.month);
    }
  }

  /** Civil is a left inverse of EpochDayOf on valid dates. */
  lemma CivilOfEpochDay(d: Date)
    requires ValidDate(d)
    ensures Civil(EpochDayOf(d)) == d
  {
    var c := Civil(EpochDayOf(d));
    if DateBefore(c, d) {
      EpochDayStrictlyIncreasing(c, d);
    } else if DateBefore(d, c) {
      EpochDayStrictlyIncreasing(d, c);
    }
  }

  /** Civil never reverses the order of epoch days. */
  lemma CivilMonotone(z1: int, z2: int)
    requires z1 <= z2
    ensures !DateBefore(Civil(z2), Civil(z1))
  {
    if DateBefore(Civil(z2), Civil(z1)) {
      EpochDayStrictlyIncreasing(Civil(z2), Civil(z1));
    }
  }

  /** Order of epoch days is the lexicographic order of their civil dates. */
  lemma CivilOrder(z1: int, z2: int)
    ensures z1 < z2 <==> DateBefore(Civil(z1), Civil(z2))
  {
    if z1 < z2 {
      CivilMonotone(z1, z2);
      assert Civil(z1) != Civil(z2);
    } else {
      CivilMonotone(z2, z1);
    }
  }

  /** java.time.DayOfWeek value (Monday = 1 ... Sunday = 7); 1970-01-01 was a Thursday. */
  function Weekday(z: int): (w: int)
    ensures 1 <= w <= 7
  {
    (z + 3) % 7 + 1
  }

  /** The Monday starting the ISO week that contains z. */
  function MondayOf(z: int): (w: int)
    ensures w <= z < w + 7
    ensures Weekday(w) == 1
  {
    z - (Weekday(z) - 1)
  }

  /** Proleptic month count (LocalDate.getProlepticMonth): year * 12 + month - 1. */
  function MonthIndex(d: Date): int {
    d.year * 12 + d.month - 1
  }

  function MonthIndexOf(z: int): int {
    MonthIndex(Civil(z))
  }

  function YearOfIndex(mi: int): int { mi / 12 }

  function MonthOfIndex(mi: int): (m: int)
    ensures 1 <= m <= 12
  {
    mi % 12 + 1
  }

  lemma MonthIndexRoundTrip(mi: int)
    ensures YearOfIndex(mi) * 12 + MonthOfIndex(mi) - 1 == mi
  {
  }

  lemma MonthIndexMonotone(z1: int, z2: int)
    requires z1 <= z2
    ensures MonthIndexOf(z1) <= MonthIndexOf(z2)
    ensures Civil(z1).year <= Civil(z2).year
  {
    CivilMonotone(z1, z2);
  }

  /** Days in the same month with a smaller month index come first. */
  lemma MonthIndexOrder(z1: int, z2: int)
    requires MonthIndexOf(z1) < MonthIndexOf(z2)
    ensures z1 < z2
  {
    if z2 <= z1 {
      MonthIndexMonotone(z2, z1);
    }
  }

  lemma YearOrder(z1: int, z2: int)
    requires Civil(z1).year < Civil(z2).year
    ensures z1 < z2
  {
    if z2 <= z1 {
      MonthIndexMonotone(z2, z1);
    }
  }

  /** The Monday-started week holding w + k, for a Monday w and 0 <= k < 7. */
  lemma WeekOf(w: int, k: int)
    requires Weekday(w) == 1 && 0 <= k < 7
    ensures Weekday(w + k) == k + 1
    ensures MondayOf(w + k) == w
  {
    var q := (w + 3) / 7;
    assert w + 3 == 7 * q;
    DivModUnique(w + k + 3, 7, q, k);
  }

  /** The epoch day of the first day of proleptic month mi. */
  function FirstOfMonth(mi: int): int {
    EpochDay(YearOfIndex(mi), MonthOfIndex(mi), 1)
  }

  lemma IndexOfMonth(y: int, m: int)
    requires 1 <= m <= 12
    ensures YearOfIndex(y * 12 + m - 1) == y && MonthOfIndex(y * 12 + m - 1) == m
  {
    DivModUnique(y * 12 + m - 1, 12, y, m - 1);
  }

  /** Consecutive months lie LengthOfMonth days apart. */
  lemma MonthSpan(mi: int)
    ensures FirstOfMonth(mi + 1) == FirstOfMonth(mi) + LengthOfMonth(YearOfIndex(mi), MonthOfIndex(mi))
  {
    var y, m := YearOfIndex(mi), MonthOfIndex(mi);
    MonthIndexRoundTrip(mi);
    if m < 12 {
      IndexOfMonth(y, m + 1);
      MonthStep(y, m);
    } else {
      IndexOfMonth(y + 1, 1);
      YearStep(y);
    }
  }

  /** A day inside month mi has the civil fields of that month. */
  lemma CivilInMonth(mi: int, x: int)
    requires FirstOfMonth(mi) <= x < FirstOfMonth(mi) + LengthOfMonth(YearOfIndex(mi), MonthOfIndex(mi))
    ensures Civil(x) == Date(YearOfIndex(mi), MonthOfIndex(mi), x - FirstOfMonth(mi) + 1)
  {
    var d := Date(YearOfIndex(mi), MonthOfIndex(mi), x - FirstOfMonth(mi) + 1);
    assert ValidDate(d);
    assert EpochDayOf(d) == x;
    CivilOfEpochDay(d);
  }

  /** Every day lies in the month MonthIndexOf names. */
  lemma MonthOfDay(z: int)
    ensures FirstOfMonth(MonthIndexOf(z)) <= z < FirstOfMonth(MonthIndexOf(z) + 1)
  {
    var c := Civil(z);
    DateInItsMonth(c);
  }

  /** A valid date lies in the month its year and month index. */
  lemma DateInItsMonth(d: Date)
    requires ValidDate(d)
    ensures FirstOfMonth(MonthIndex(d)) <= EpochDayOf(d) < FirstOfMonth(MonthIndex(d) + 1)
  {
    MonthOfIndexSpan(d.year, d.month, MonthIndex(d));
    DayInMonth(d.year, d.month, d.day);
  }

  /** Day d of a month lies d - 1 days after its first. */
  lemma DayInMonth(y: int, m: int, d: int)
    requires 1 <= m <= 12
    ensures EpochDay(y, m, d) == EpochDay(y, m, 1) + d - 1
  {
  }

  /** The month with index mi = y * 12 + m - 1 starts on the first of m and runs LengthOfMonth days. */
  lemma MonthOfIndexSpan(y: int, m: int, mi: int)
    requires 1 <= m <= 12 && mi == y * 12 + m - 1
    ensures FirstOfMonth(mi) == EpochDay(y, m, 1)
    ensures FirstOfMonth(mi + 1) == EpochDay(y, m, 1) + LengthOfMonth(y, m)
  {
    IndexOfMonth(y, m);
    MonthSpan(mi);
  }

  lemma {:induction false} FirstOfMonthMonotone(a: int, b: int)
    requires a <= b
    ensures FirstOfMonth(a) <= FirstOfMonth(b)
    decreases b - a
  {
    if a < b {
      MonthSpan(a);
      FirstOfMonthMonotone(a + 1, b);
    }
  }

  /** The epoch day of January 1st of year y. */
  function FirstOfYear(y: int): int {
    EpochDay(y, 1, 1)
  }

  /** Every day lies in the year Civil names. */
  lemma YearBounds(z: int)
    ensures FirstOfYear(Civil(z).year) <= z < FirstOfYear(Civil(z).year + 1)
  {
    var c := Civil(z);
    YearStep(c.year);
    MonthStep(c.year, c.month);
    MonthMonotone(c.year, c.month + 1, 13);
  }

  /** The days from one January 1st up to the next belong to that year. */
  lemma YearOfDay(y: int, x: int)
    requires FirstOfYear(y) <= x < FirstOfYear(y + 1)
    ensures Civil(x).year == y
  {
    var c := Civil(x);
    YearBounds(x);
    if c.year < y {
      YearMonotone(c.year + 1, y);
    } else if c.year > y {
      YearMonotone(y + 1, c.year);
    }
  }

  lemma FirstOfYearMonotone(a: int, b: int)
    requires a <= b
    ensures FirstOfYear(a) <= FirstOfYear(b)
  {
    YearMonotone(a, b);
  }

  lemma WeekdayPlusWeek(z: int)
    ensures Weekday(z + 7) == Weekday(z)
  {
    ModAddMultiple(z + 3, 1, 7);
  }

  /** Two Mondays lie a whole number of weeks apart. */
  lemma MondaysApart(a: int, b: int)
    requires Weekday(a) == 1 && Weekday(b) == 1
    ensures (b - a) % 7 == 0
  {
    var p, q := (a + 3) / 7, (b + 3) / 7;
    assert a + 3 == p * 7 && b + 3 == q * 7;
    assert b - a == (q - p) * 7;
    ModAddMultiple(0, q - p, 7);
  }

  /** A later day never has an earlier week. */
  lemma MondayOfMonotone(x: int, y: int)
    requires x <= y
    ensures MondayOf(x) <= MondayOf(y)
  {
    MondaysApart(MondayOf(y), MondayOf(x));
    if MondayOf(y) < MondayOf(x) {
      CongruentGap(MondayOf(y), MondayOf(x), MondayOf(y), 7);
    }
  }
}
