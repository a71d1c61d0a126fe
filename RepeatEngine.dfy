/**
 * RepeatEngine.kt: the dates on which a task is due inside a query window.
 *
 * The specification is a predicate `Occurs(sc, x)` ("x is an on-cycle date
 * of the schedule, not before its start and not after its until date") and
 * the function `Due(sc, lo, hi)` listing, in ascending order, the days of
 * [lo, hi] on which it holds. Each frequency branch of `occurrences` is a
 * stepping loop proved to produce exactly `Due`.
 */
module RepeatEngine {
  import opened Wrappers
  import opened Calendar
  import opened KotlinText
  import opened DateUtils
  import opened RoutineProto

  /** A task's start date, until date and rule once the date keys are parsed. */
  datatype Schedule = Schedule(start: int, until: Option<int>, rule: RepeatRule)

  /** Int.coerceAtMost. */
  function CoerceAtMost(v: int, max: int): (r: int)
    ensures r <= v && r <= max && (r == v || r == max)
  {
    if v > max then max else v
  }

  /** The step: an interval of zero or less counts as 1. */
  function Interval(rule: RepeatRule): (n: int)
    ensures n >= 1
    ensures rule.interval >= 1 ==> n == rule.interval
    ensures rule.interval <= 0 ==> n == 1
  {
    if rule.interval <= 0 then 1 else rule.interval
  }

  /**
   * WEEKLY days: the stored weekday numbers that name a DayOfWeek (DayOfWeek.of
   * throws for the others, which are dropped), or the start date's weekday when
   * none are stored.
   */
  function WeekdaySet(sc: Schedule): (days: set<int>)
    ensures forall w :: w in days ==> 1 <= w <= 7
    ensures |sc.rule.weekdays| == 0 ==> days == {Weekday(sc.start)}
    ensures |sc.rule.weekdays| > 0 ==> forall w :: w in days <==> w in sc.rule.weekdays && 1 <= w <= 7
  {
    if |sc.rule.weekdays| > 0 then set w | w in sc.rule.weekdays && 1 <= w <= 7
    else {Weekday(sc.start)}
  }

  /** MONTHLY day: dayOfMonth when set, else the start date's day of month. */
  function MonthDay(sc: Schedule): (dom: int)
    ensures dom >= 1
    ensures sc.rule.dayOfMonth >= 1 ==> dom == sc.rule.dayOfMonth
    ensures sc.rule.dayOfMonth <= 0 ==> dom == Civil(sc.start).day
  {
    if sc.rule.dayOfMonth <= 0 then Civil(sc.start).day else sc.rule.dayOfMonth
  }

  /** The `inWindow` helper: inside [lo, hi], not before the start, not after the until date. */
  predicate InWindow(sc: Schedule, lo: int, hi: int, x: int) {
    lo <= x <= hi && x >= sc.start && (sc.until.None? || x <= sc.until.value)
  }

  /** Whole weeks from the Monday of the start date's week to the Monday of x's week. */
  function WeeksFromStart(sc: Schedule, x: int): int {
    (MondayOf(x) - MondayOf(sc.start)) / 7
  }

  /** Whole months from the start date's month to x's month. */
  function MonthsFromStart(sc: Schedule, x: int): int {
    MonthIndexOf(x) - MonthIndexOf(sc.start)
  }

  /** Whether x is on the cycle of the rule, measured from the start date only. */
  predicate OnCycle(sc: Schedule, x: int) {
    match sc.rule.frequency
    case NoRepeat => x == sc.start
    case Daily => (x - sc.start) % Interval(sc.rule) == 0
    case Weekly => WeeklyMatch(sc, x)
    case Monthly => MonthlyMatch(sc, x)
    case Yearly => YearlyMatch(sc, x)
    case Other => false
  }

  /** WEEKLY: a chosen weekday, in a week a whole number of intervals after the start date's week. */
  predicate WeeklyMatch(sc: Schedule, x: int) {
    Weekday(x) in WeekdaySet(sc) &&
    WeeksFromStart(sc, x) >= 0 && WeeksFromStart(sc, x) % Interval(sc.rule) == 0
  }

  /** MONTHLY: the clamped day, in a month a whole number of intervals after the start date's month. */
  predicate MonthlyMatch(sc: Schedule, x: int) {
    var c := Civil(x);
    MonthsFromStart(sc, x) >= 0 && MonthsFromStart(sc, x) % Interval(sc.rule) == 0 &&
    c.day == CoerceAtMost(MonthDay(sc), LengthOfMonth(c.year, c.month))
  }

  /** YEARLY: the start date's month and clamped day, in a year a whole number of intervals after it. */
  predicate YearlyMatch(sc: Schedule, x: int) {
    var c, s := Civil(x), Civil(sc.start);
    c.year - s.year >= 0 && (c.year - s.year) % Interval(sc.rule) == 0 && c.month == s.month &&
    c.day == CoerceAtMost(s.day, LengthOfMonth(c.year, c.month))
  }

  /** x is a due date of the schedule, whatever the window. */
  predicate Occurs(sc: Schedule, x: int) {
    x >= sc.start && (sc.until.None? || x <= sc.until.value) && OnCycle(sc, x)
  }

  /** The due dates in [lo, hi], ascending. */
  function Due(sc: Schedule, lo: int, hi: int): seq<int>
    decreases hi - lo
  {
    if hi < lo then [] else Due(sc, lo, hi - 1) + (if Occurs(sc, hi) then [hi] else [])
  }

  /** v lies in the window [lo, hi] and is due. */
  predicate DueIn(sc: Schedule, lo: int, hi: int, v: int) {
    lo <= v <= hi && Occurs(sc, v)
  }

  /** [v] when c holds, else nothing. */
  function When(c: bool, v: int): seq<int> {
    if c then [v] else []
  }

  function Min(a: int, b: int): int {
    if a < b then a else b
  }

  // ---------------------------------------------------------------------------
  // Properties of the specification

  /** A date is listed iff it lies in the window and occurs: the window only filters. */
  lemma {:induction false} DueMembership(sc: Schedule, lo: int, hi: int, x: int)
    ensures x in Due(sc, lo, hi) <==> lo <= x <= hi && Occurs(sc, x)
    decreases hi - lo
  {
    if hi >= lo {
      DueMembership(sc, lo, hi - 1, x);
    }
  }

  /** The due dates come strictly ascending, so without duplicates. */
  lemma {:induction false} DueSorted(sc: Schedule, lo: int, hi: int)
    ensures forall i, j :: 0 <= i < j < |Due(sc, lo, hi)| ==> Due(sc, lo, hi)[i] < Due(sc, lo, hi)[j]
    decreases hi - lo
  {
    if hi >= lo {
      DueSorted(sc, lo, hi - 1);
      var prev := Due(sc, lo, hi - 1);
      forall i | 0 <= i < |prev|
        ensures prev[i] < hi
      {
        DueMembership(sc, lo, hi - 1, prev[i]);
      }
    }
  }

  /** Nothing is due before the window opens or before the start date. */
  lemma {:induction false} DueEmpty(sc: Schedule, lo: int, h: int)
    requires h < lo || h < sc.start
    ensures Due(sc, lo, h) == []
    decreases h - lo
  {
    if h >= lo {
      DueEmpty(sc, lo, h - 1);
    }
  }

  /** Widening the window only adds dates. */
  lemma DueWiden(sc: Schedule, lo: int, hi: int, lo': int, hi': int, x: int)
    requires lo' <= lo && hi <= hi'
    requires x in Due(sc, lo, hi)
    ensures x in Due(sc, lo', hi')
  {
    DueMembership(sc, lo, hi, x);
    DueMembership(sc, lo', hi', x);
  }

  /** A stretch [a, b] with no due date adds nothing to the list. */
  lemma {:induction false} DueNone(sc: Schedule, lo: int, hi: int, a: int, b: int)
    requires a - 1 <= b
    requires forall x :: a <= x <= b ==> !Occurs(sc, x)
    ensures Due(sc, lo, Min(b, hi)) == Due(sc, lo, Min(a - 1, hi))
    decreases b - a
  {
    if a <= b {
      DueNone(sc, lo, hi, a, b - 1);
      DueStep(sc, lo, hi, b);
      assert !DueIn(sc, lo, hi, b);
    }
  }

  /** A stretch [a, b] whose only candidate is v adds v when v is due and in the window. */
  lemma DueSingle(sc: Schedule, lo: int, hi: int, a: int, b: int, v: int)
    requires a <= v <= b
    requires forall x :: a <= x <= b && x != v ==> !Occurs(sc, x)
    ensures Due(sc, lo, Min(b, hi)) ==
      Due(sc, lo, Min(a - 1, hi)) + When(DueIn(sc, lo, hi, v), v)
  {
    DueNone(sc, lo, hi, a, v - 1);
    DueNone(sc, lo, hi, v + 1, b);
    DueStep(sc, lo, hi, v);
  }

  /** Moving the upper end of the window over one day adds that day when due. */
  lemma DueStep(sc: Schedule, lo: int, hi: int, v: int)
    ensures Due(sc, lo, Min(v, hi)) ==
      Due(sc, lo, Min(v - 1, hi)) + When(DueIn(sc, lo, hi, v), v)
  {
    if v > hi {
      assert Min(v, hi) == Min(v - 1, hi);
    } else if v < lo {
      assert Due(sc, lo, v) == [] && Due(sc, lo, v - 1) == [];
    } else {
      assert Min(v, hi) == v && Min(v - 1, hi) == v - 1;
    }
  }

  // ---------------------------------------------------------------------------
  // DAILY

  /**
   * The DAILY branch: jump to the first aligned day not before lo (whole
   * intervals counted from the start date), then step by the interval.
   */
  method DailyOccurrences(sc: Schedule, lo: int, hi: int) returns (out: seq<int>)
    requires sc.rule.frequency == Daily
    ensures out == Due(sc, lo, hi)
  {
    var interval := Interval(sc.rule);
    out := [];
    var d := sc.start;
    if d < lo {
      var daysBetween := lo - d;
      var skip := (daysBetween / interval) * interval;
      Arith.RoundDown(daysBetween, interval);
      d := d + skip;
      while d < lo
        invariant sc.start <= d && (d - sc.start) % interval == 0 && d - interval < lo
        decreases lo - d
      {
        Arith.CongruentStep(d, sc.start, interval);
        d := d + interval;
      }
    }
    DailyFirst(sc, lo, hi, d);
    while d <= hi
      invariant d >= lo && d >= sc.start && (d - sc.start) % interval == 0
      invariant out == Due(sc, lo, Min(d - 1, hi))
      decreases hi - d
    {
      DailyStretch(sc, lo, hi, d);
      Arith.CongruentStep(d, sc.start, interval);
      if InWindow(sc, lo, hi, d) {
        out := out + [d];
      }
      d := d + interval;
    }
  }

  /** No due date lies in the window before the first aligned day the loop starts from. */
  lemma DailyFirst(sc: Schedule, lo: int, hi: int, d: int)
    requires sc.rule.frequency == Daily
    requires d >= lo && d >= sc.start && (d - sc.start) % Interval(sc.rule) == 0
    requires d == sc.start || d - Interval(sc.rule) < lo
    ensures Due(sc, lo, Min(d - 1, hi)) == []
  {
    forall x | lo <= x <= d - 1
      ensures !Occurs(sc, x)
    {
      if Occurs(sc, x) {
        Arith.CongruentGap(x, d, sc.start, Interval(sc.rule));
      }
    }
    DueNone(sc, lo, hi, lo, d - 1);
  }

  /** One step of the DAILY loop: the days from d up to the next aligned day add at most d. */
  lemma DailyStretch(sc: Schedule, lo: int, hi: int, d: int)
    requires sc.rule.frequency == Daily
    requires d >= sc.start && (d - sc.start) % Interval(sc.rule) == 0
    ensures Due(sc, lo, Min(d + Interval(sc.rule) - 1, hi)) ==
      Due(sc, lo, Min(d - 1, hi)) + When(InWindow(sc, lo, hi, d), d)
  {
    var n := Interval(sc.rule);
    forall x | d <= x <= d + n - 1 && x != d
      ensures !Occurs(sc, x)
    {
      if Occurs(sc, x) {
        Arith.CongruentGap(d, x, sc.start, n);
      }
    }
    DueSingle(sc, lo, hi, d, d + n - 1, d);
  }

  // ---------------------------------------------------------------------------
  // WEEKLY

  /**
   * The WEEKLY branch: walk the Monday-started weeks from the week of
   * max(lo, start) up to hi; in a week an on-cycle number of weeks after the
   * start date's week, take each chosen weekday that passes `inWindow`.
   * The days of a week are visited Monday first, so the list comes out in
   * the order the source obtains by sorting.
   */
  method WeeklyOccurrences(sc: Schedule, lo: int, hi: int) returns (out: seq<int>)
    requires sc.rule.frequency == Weekly
    ensures out == Due(sc, lo, hi)
  {
    var interval := Interval(sc.rule);
    var weekdays := WeekdaySet(sc);
    out := [];
    var cursor := lo;
    if cursor < sc.start {
      cursor := sc.start;
    }
    var weekStart := cursor - (Weekday(cursor) - 1);
    var anchor := sc.start - (Weekday(sc.start) - 1);
    WeeklyFirst(sc, lo, hi, cursor);
    var w := weekStart;
    while w <= hi
      invariant Weekday(w) == 1 && w >= anchor && (w - anchor) % 7 == 0
      invariant out == Due(sc, lo, Min(w - 1, hi))
      decreases hi - w
    {
      var weeksFromStart := (w - anchor) / 7;
      var nextWeek := w + 7;
      if weeksFromStart >= 0 && weeksFromStart % interval == 0 {
        var hit := WeeklyVisit(sc, lo, hi, w, weekdays);
        WeeklyWeek(sc, lo, hi, w, nextWeek);
        out := out + hit;
      } else {
        WeeklyOffWeek(sc, lo, hi, w, nextWeek);
      }
      WeekdayPlusWeek(w);
      Arith.CongruentStep(w, anchor, 7);
      w := nextWeek;
    }
  }

  /** The body of the WEEKLY loop for an on-cycle week starting on Monday w: its chosen days that pass `inWindow`. */
  method WeeklyVisit(sc: Schedule, lo: int, hi: int, w: int, weekdays: set<int>) returns (hit: seq<int>)
    requires weekdays == WeekdaySet(sc)
    ensures hit == WeekHits(sc, lo, hi, w, 8)
  {
    hit := [];
    var dow := 1;
    while dow <= 7
      invariant 1 <= dow <= 8
      invariant hit == WeekHits(sc, lo, hi, w, dow)
    {
      var nextDay := dow + 1;
      WeekHitsStep(sc, lo, hi, w, dow, nextDay);
      if dow in weekdays {
        var d := w + (dow - 1);
        if InWindow(sc, lo, hi, d) {
          hit := hit + [d];
        }
      }
      dow := nextDay;
    }
  }

  /** Day number dow (1 = Monday) of the week starting on w, when it is chosen and passes `inWindow`. */
  function WeekdayHit(sc: Schedule, lo: int, hi: int, w: int, dow: int): seq<int> {
    When(dow in WeekdaySet(sc) && InWindow(sc, lo, hi, w + (dow - 1)), w + (dow - 1))
  }

  /** The days numbered 1 .. dow - 1 of the week starting on w that are taken. */
  function WeekHits(sc: Schedule, lo: int, hi: int, w: int, dow: int): seq<int>
    decreases dow
  {
    if dow <= 1 then [] else WeekHits(sc, lo, hi, w, dow - 1) + WeekdayHit(sc, lo, hi, w, dow - 1)
  }

  lemma WeekHitsStep(sc: Schedule, lo: int, hi: int, w: int, dow: int, nextDay: int)
    requires 1 <= dow && nextDay == dow + 1
    ensures WeekHits(sc, lo, hi, w, nextDay) == WeekHits(sc, lo, hi, w, dow) + WeekdayHit(sc, lo, hi, w, dow)
  {
  }

  /** In an on-cycle week, the days taken up to day dow are the due dates of the window in that stretch. */
  lemma {:induction false} WeekHitsDue(sc: Schedule, lo: int, hi: int, w: int, dow: int)
    requires sc.rule.frequency == Weekly
    requires Weekday(w) == 1 && 1 <= dow <= 8
    requires (w - MondayOf(sc.start)) / 7 >= 0 && ((w - MondayOf(sc.start)) / 7) % Interval(sc.rule) == 0
    ensures Due(sc, lo, Min(w + dow - 2, hi)) == Due(sc, lo, Min(w - 1, hi)) + WeekHits(sc, lo, hi, w, dow)
    decreases dow
  {
    if dow > 1 {
      var p := dow - 1;
      WeekHitsDue(sc, lo, hi, w, p);
      WeeklyDay(sc, lo, hi, w, p, dow);
    }
  }

  /** An on-cycle week adds the days its walk takes. */
  lemma WeeklyWeek(sc: Schedule, lo: int, hi: int, w: int, nextWeek: int)
    requires sc.rule.frequency == Weekly
    requires Weekday(w) == 1 && nextWeek == w + 7
    requires (w - MondayOf(sc.start)) / 7 >= 0 && ((w - MondayOf(sc.start)) / 7) % Interval(sc.rule) == 0
    ensures Due(sc, lo, Min(nextWeek - 1, hi)) == Due(sc, lo, Min(w - 1, hi)) + WeekHits(sc, lo, hi, w, 8)
  {
    WeekHitsDue(sc, lo, hi, w, 8);
    assert w + 8 - 2 == nextWeek - 1;
  }

  /** The loop starts at a Monday on or after the start date's Monday, with nothing due before it. */
  lemma WeeklyFirst(sc: Schedule, lo: int, hi: int, cursor: int)
    requires cursor == if lo < sc.start then sc.start else lo
    ensures MondayOf(cursor) >= MondayOf(sc.start)
    ensures (MondayOf(cursor) - MondayOf(sc.start)) % 7 == 0
    ensures Due(sc, lo, Min(MondayOf(cursor) - 1, hi)) == []
  {
    MondayOfMonotone(sc.start, cursor);
    MondaysApart(MondayOf(sc.start), MondayOf(cursor));
    var ws := MondayOf(cursor);
    if ws >= lo {
      DueNone(sc, lo, hi, lo, ws - 1);
    }
  }

  /** In an on-cycle week, day number dow (1 = Monday) is due exactly when it is chosen and passes `inWindow`. */
  lemma WeeklyDay(sc: Schedule, lo: int, hi: int, w: int, dow: int, nextDay: int)
    requires sc.rule.frequency == Weekly
    requires Weekday(w) == 1 && 1 <= dow <= 7 && nextDay == dow + 1
    requires (w - MondayOf(sc.start)) / 7 >= 0 && ((w - MondayOf(sc.start)) / 7) % Interval(sc.rule) == 0
    ensures Due(sc, lo, Min(w + nextDay - 2, hi)) == Due(sc, lo, Min(w + dow - 2, hi)) + WeekdayHit(sc, lo, hi, w, dow)
  {
    var d := w + (dow - 1);
    WeekOf(w, dow - 1);
    assert WeeksFromStart(sc, d) == (w - MondayOf(sc.start)) / 7;
    assert InWindow(sc, lo, hi, d) && dow in WeekdaySet(sc) <==> DueIn(sc, lo, hi, d);
    DueStep(sc, lo, hi, d);
    assert d == w + nextDay - 2 && d - 1 == w + dow - 2;
  }

  /** An off-cycle week adds nothing. */
  lemma WeeklyOffWeek(sc: Schedule, lo: int, hi: int, w: int, nextWeek: int)
    requires sc.rule.frequency == Weekly
    requires Weekday(w) == 1 && nextWeek == w + 7
    requires !((w - MondayOf(sc.start)) / 7 >= 0 && ((w - MondayOf(sc.start)) / 7) % Interval(sc.rule) == 0)
    ensures Due(sc, lo, Min(nextWeek - 1, hi)) == Due(sc, lo, Min(w - 1, hi))
  {
    forall x | w <= x <= w + 6
      ensures !Occurs(sc, x)
    {
      WeekOf(w, x - w);
    }
    DueNone(sc, lo, hi, w, w + 6);
  }

  // ---------------------------------------------------------------------------
  // MONTHLY

  /**
   * The MONTHLY branch: walk the months (as proleptic month indexes) from
   * max(start month, lo's month) to hi's month; in an on-cycle month take
   * the day min(dom, length of the month) when it passes `inWindow`.
   */
  method MonthlyOccurrences(sc: Schedule, lo: int, hi: int) returns (out: seq<int>)
    requires sc.rule.frequency == Monthly
    ensures out == Due(sc, lo, hi)
  {
    var interval := Interval(sc.rule);
    out := [];
    var dom := MonthDay(sc);
    var startMonth := MonthIndexOf(sc.start);
    var mi := startMonth;
    var loMonth := MonthIndexOf(lo);
    if mi < loMonth {
      mi := loMonth;
    }
    var hiMonth := MonthIndexOf(hi);
    ghost var firstMonth := mi;
    while mi <= hiMonth
      invariant firstMonth <= mi
      invariant out == MonthlyHits(sc, lo, hi, firstMonth, mi)
      decreases hiMonth - mi
    {
      var hit := MonthlyVisit(sc, lo, hi, mi, startMonth, interval, dom);
      var next := mi + 1;
      MonthlyHitsStep(sc, lo, hi, firstMonth, mi, next);
      out := out + hit;
      mi := next;
    }
    MonthlyDone(sc, lo, hi, firstMonth, mi);
  }

  /** The body of the MONTHLY loop for month mi: its clamped day, when the month is on cycle and the day passes `inWindow`. */
  method MonthlyVisit(sc: Schedule, lo: int, hi: int, mi: int, startMonth: int, interval: int, dom: int)
    returns (hit: seq<int>)
    requires startMonth == MonthIndexOf(sc.start) && interval == Interval(sc.rule) && dom == MonthDay(sc)
    ensures hit == MonthlyHit(sc, lo, hi, mi)
  {
    hit := [];
    var monthsFromStart := mi - startMonth;
    if monthsFromStart >= 0 && monthsFromStart % interval == 0 {
      var y, m := YearOfIndex(mi), MonthOfIndex(mi);
      var day := CoerceAtMost(dom, LengthOfMonth(y, m));
      var occ := EpochDay(y, m, day);
      if InWindow(sc, lo, hi, occ) {
        hit := [occ];
      }
    }
  }

  /** The days months m0 .. mi - 1 add, in month order. */
  function MonthlyHits(sc: Schedule, lo: int, hi: int, m0: int, mi: int): seq<int>
    decreases mi - m0
  {
    if mi <= m0 then [] else MonthlyHits(sc, lo, hi, m0, mi - 1) + MonthlyHit(sc, lo, hi, mi - 1)
  }

  lemma MonthlyHitsStep(sc: Schedule, lo: int, hi: int, m0: int, mi: int, next: int)
    requires m0 <= mi && next == mi + 1
    ensures MonthlyHits(sc, lo, hi, m0, next) == MonthlyHits(sc, lo, hi, m0, mi) + MonthlyHit(sc, lo, hi, mi)
  {
  }

  /** Walking the months from the loop's first month up to mi lists the due dates before month mi. */
  lemma {:induction false} MonthlyHitsDue(sc: Schedule, lo: int, hi: int, m0: int, mi: int)
    requires sc.rule.frequency == Monthly
    requires m0 == if MonthIndexOf(sc.start) < MonthIndexOf(lo) then MonthIndexOf(lo) else MonthIndexOf(sc.start)
    requires m0 <= mi
    ensures MonthlyHits(sc, lo, hi, m0, mi) == Due(sc, lo, Min(FirstOfMonth(mi) - 1, hi))
    decreases mi - m0
  {
    if mi == m0 {
      MonthlyFirst(sc, lo, hi, mi);
    } else {
      var p := mi - 1;
      MonthlyHitsDue(sc, lo, hi, m0, p);
      MonthlyAdvance(sc, lo, hi, p, mi);
    }
  }

  /** Once past hi's month, the walk has listed every due date of the window. */
  lemma MonthlyDone(sc: Schedule, lo: int, hi: int, m0: int, mi: int)
    requires sc.rule.frequency == Monthly
    requires m0 == if MonthIndexOf(sc.start) < MonthIndexOf(lo) then MonthIndexOf(lo) else MonthIndexOf(sc.start)
    requires m0 <= mi && mi > MonthIndexOf(hi)
    ensures MonthlyHits(sc, lo, hi, m0, mi) == Due(sc, lo, hi)
  {
    MonthlyHitsDue(sc, lo, hi, m0, mi);
    MonthlyLast(hi, mi);
  }

  /** Nothing is due in the window before the month the loop starts from. */
  lemma MonthlyFirst(sc: Schedule, lo: int, hi: int, mi: int)
    requires mi == if MonthIndexOf(sc.start) < MonthIndexOf(lo) then MonthIndexOf(lo) else MonthIndexOf(sc.start)
    ensures Due(sc, lo, Min(FirstOfMonth(mi) - 1, hi)) == []
  {
    MonthOfDay(lo);
    MonthOfDay(sc.start);
    DueEmpty(sc, lo, Min(FirstOfMonth(mi) - 1, hi));
  }

  /** The loop has passed hi once the month index exceeds hi's. */
  lemma MonthlyLast(hi: int, mi: int)
    requires mi > MonthIndexOf(hi)
    ensures FirstOfMonth(mi) - 1 >= hi
  {
    MonthOfDay(hi);
    FirstOfMonthMonotone(MonthIndexOf(hi) + 1, mi);
  }

  /** Month mi is a whole number of intervals after the start date's month. */
  predicate MonthOnCycle(sc: Schedule, mi: int) {
    mi - MonthIndexOf(sc.start) >= 0 && (mi - MonthIndexOf(sc.start)) % Interval(sc.rule) == 0
  }

  /** The day a MONTHLY rule picks in month mi. */
  function MonthlyDate(sc: Schedule, mi: int): int {
    var y, m := YearOfIndex(mi), MonthOfIndex(mi);
    EpochDay(y, m, CoerceAtMost(MonthDay(sc), LengthOfMonth(y, m)))
  }

  /** The days month mi adds: its MONTHLY date when the month is on cycle and the date passes `inWindow`. */
  function MonthlyHit(sc: Schedule, lo: int, hi: int, mi: int): seq<int> {
    When(MonthOnCycle(sc, mi) && InWindow(sc, lo, hi, MonthlyDate(sc, mi)), MonthlyDate(sc, mi))
  }

  /** One step of the MONTHLY loop: month mi adds exactly its hit. */
  lemma MonthlyAdvance(sc: Schedule, lo: int, hi: int, mi: int, next: int)
    requires sc.rule.frequency == Monthly
    requires next == mi + 1
    ensures Due(sc, lo, Min(FirstOfMonth(next) - 1, hi)) == Due(sc, lo, Min(FirstOfMonth(mi) - 1, hi)) + MonthlyHit(sc, lo, hi, mi)
  {
    if MonthOnCycle(sc, mi) {
      MonthlyMonth(sc, lo, hi, mi);
      MonthlyCandidates(sc, mi);
    } else {
      MonthlyOffMonth(sc, lo, hi, mi);
    }
  }

  /**
   * Month mi spans [FirstOfMonth(mi), FirstOfMonth(mi + 1) - 1]; its MONTHLY
   * date lies in it, and a day of it is on cycle exactly when the month is
   * and the day is that date.
   */
  lemma MonthlyCandidates(sc: Schedule, mi: int)
    requires sc.rule.frequency == Monthly
    ensures FirstOfMonth(mi) <= MonthlyDate(sc, mi) <= FirstOfMonth(mi + 1) - 1
    ensures forall x :: FirstOfMonth(mi) <= x <= FirstOfMonth(mi + 1) - 1 ==>
      (OnCycle(sc, x) <==> MonthOnCycle(sc, mi) && x == MonthlyDate(sc, mi))
  {
    MonthSpan(mi);
    MonthIndexRoundTrip(mi);
    forall x | FirstOfMonth(mi) <= x <= FirstOfMonth(mi + 1) - 1
      ensures OnCycle(sc, x) <==> MonthOnCycle(sc, mi) && x == MonthlyDate(sc, mi)
    {
      CivilInMonth(mi, x);
      assert MonthsFromStart(sc, x) == mi - MonthIndexOf(sc.start);
    }
  }

  /** In an on-cycle month, the only candidate is the clamped day. */
  lemma MonthlyMonth(sc: Schedule, lo: int, hi: int, mi: int)
    requires sc.rule.frequency == Monthly
    requires MonthOnCycle(sc, mi)
    ensures Due(sc, lo, Min(FirstOfMonth(mi + 1) - 1, hi)) == Due(sc, lo, Min(FirstOfMonth(mi) - 1, hi)) +
      When(DueIn(sc, lo, hi, MonthlyDate(sc, mi)), MonthlyDate(sc, mi))
  {
    var a, b, v := FirstOfMonth(mi), FirstOfMonth(mi + 1) - 1, MonthlyDate(sc, mi);
    assert a <= v <= b && forall x :: a <= x <= b && x != v ==> !Occurs(sc, x) by {
      MonthlyOnly(sc, mi);
    }
    DueSingle(sc, lo, hi, a, b, v);
  }

  /** In an on-cycle month, no day but the MONTHLY date is due. */
  lemma MonthlyOnly(sc: Schedule, mi: int)
    requires sc.rule.frequency == Monthly
    requires MonthOnCycle(sc, mi)
    ensures FirstOfMonth(mi) <= MonthlyDate(sc, mi) <= FirstOfMonth(mi + 1) - 1
    ensures forall x :: FirstOfMonth(mi) <= x <= FirstOfMonth(mi + 1) - 1 && x != MonthlyDate(sc, mi) ==> !Occurs(sc, x)
  {
    MonthlyCandidates(sc, mi);
  }

  /** An off-cycle month adds nothing. */
  lemma MonthlyOffMonth(sc: Schedule, lo: int, hi: int, mi: int)
    requires sc.rule.frequency == Monthly
    requires !MonthOnCycle(sc, mi)
    ensures Due(sc, lo, Min(FirstOfMonth(mi + 1) - 1, hi)) == Due(sc, lo, Min(FirstOfMonth(mi) - 1, hi))
  {
    MonthlyCandidates(sc, mi);
    DueNone(sc, lo, hi, FirstOfMonth(mi), FirstOfMonth(mi + 1) - 1);
  }

  // ---------------------------------------------------------------------------
  // YEARLY

  /**
   * The YEARLY branch: walk the years from lo's year to hi's year; in an
   * on-cycle year take the start date's month and day, the day clamped to
   * the month's length, when it passes `inWindow`.
   */
  method YearlyOccurrences(sc: Schedule, lo: int, hi: int) returns (out: seq<int>)
    requires sc.rule.frequency == Yearly
    ensures out == Due(sc, lo, hi)
  {
    var interval := Interval(sc.rule);
    out := [];
    var s := Civil(sc.start);
    var year := Civil(lo).year;
    var endYear := Civil(hi).year;
    ghost var firstYear := year;
    while year <= endYear
      invariant firstYear <= year
      invariant out == YearlyHits(sc, lo, hi, firstYear, year)
      decreases endYear - year
    {
      var hit := YearlyVisit(sc, lo, hi, year, s, interval);
      var next := year + 1;
      YearlyHitsStep(sc, lo, hi, firstYear, year, next);
      out := out + hit;
      year := next;
    }
    YearlyDone(sc, lo, hi, firstYear, year);
  }

  /** The body of the YEARLY loop for year y: the clamped anniversary, when the year is on cycle and the day passes `inWindow`. */
  method YearlyVisit(sc: Schedule, lo: int, hi: int, year: int, s: Date, interval: int) returns (hit: seq<int>)
    requires s == Civil(sc.start) && interval == Interval(sc.rule)
    ensures hit == YearlyHit(sc, lo, hi, year)
  {
    hit := [];
    var yearsFromStart := year - s.year;
    if yearsFromStart >= 0 && yearsFromStart % interval == 0 {
      var day := CoerceAtMost(s.day, LengthOfMonth(year, s.month));
      var occ := EpochDay(year, s.month, day);
      if InWindow(sc, lo, hi, occ) {
        hit := [occ];
      }
    }
  }

  /** Year y is a whole number of intervals after the start date's year. */
  predicate YearOnCycle(sc: Schedule, y: int) {
    y - Civil(sc.start).year >= 0 && (y - Civil(sc.start).year) % Interval(sc.rule) == 0
  }

  /** The day a YEARLY rule picks in year y: the start date's month and day, clamped. */
  function YearlyDate(sc: Schedule, y: int): int {
    var s := Civil(sc.start);
    EpochDay(y, s.month, CoerceAtMost(s.day, LengthOfMonth(y, s.month)))
  }

  /** The days year y adds: its YEARLY date when the year is on cycle and the date passes `inWindow`. */
  function YearlyHit(sc: Schedule, lo: int, hi: int, y: int): seq<int> {
    When(YearOnCycle(sc, y) && InWindow(sc, lo, hi, YearlyDate(sc, y)), YearlyDate(sc, y))
  }

  /** The days years y0 .. y - 1 add, in year order. */
  function YearlyHits(sc: Schedule, lo: int, hi: int, y0: int, y: int): seq<int>
    decreases y - y0
  {
    if y <= y0 then [] else YearlyHits(sc, lo, hi, y0, y - 1) + YearlyHit(sc, lo, hi, y - 1)
  }

  lemma YearlyHitsStep(sc: Schedule, lo: int, hi: int, y0: int, y: int, next: int)
    requires y0 <= y && next == y + 1
    ensures YearlyHits(sc, lo, hi, y0, next) == YearlyHits(sc, lo, hi, y0, y) + YearlyHit(sc, lo, hi, y)
  {
  }

  /** Walking the years from lo's year up to y lists the due dates before year y. */
  lemma {:induction false} YearlyHitsDue(sc: Schedule, lo: int, hi: int, y0: int, y: int)
    requires sc.rule.frequency == Yearly
    requires y0 == Civil(lo).year && y0 <= y
    ensures YearlyHits(sc, lo, hi, y0, y) == Due(sc, lo, Min(FirstOfYear(y) - 1, hi))
    decreases y - y0
  {
    if y == y0 {
      YearlyFirst(sc, lo, hi);
    } else {
      var p := y - 1;
      YearlyHitsDue(sc, lo, hi, y0, p);
      YearlyAdvance(sc, lo, hi, p, y);
    }
  }

  /** Nothing is due in the window before lo's year. */
  lemma YearlyFirst(sc: Schedule, lo: int, hi: int)
    ensures Due(sc, lo, Min(FirstOfYear(Civil(lo).year) - 1, hi)) == []
  {
    YearBounds(lo);
    DueEmpty(sc, lo, Min(FirstOfYear(Civil(lo).year) - 1, hi));
  }

  /** Once past hi's year, the walk has listed every due date of the window. */
  lemma YearlyDone(sc: Schedule, lo: int, hi: int, y0: int, y: int)
    requires sc.rule.frequency == Yearly
    requires y0 == Civil(lo).year && y0 <= y && y > Civil(hi).year
    ensures YearlyHits(sc, lo, hi, y0, y) == Due(sc, lo, hi)
  {
    var h := Civil(hi).year;
    YearBounds(hi);
    FirstOfYearMonotone(h + 1, y);
    assert Min(FirstOfYear(y) - 1, hi) == hi;
    YearlyHitsDue(sc, lo, hi, y0, y);
  }

  /** One step of the YEARLY loop: year y adds exactly its hit. */
  lemma YearlyAdvance(sc: Schedule, lo: int, hi: int, y: int, next: int)
    requires sc.rule.frequency == Yearly
    requires next == y + 1
    ensures Due(sc, lo, Min(FirstOfYear(next) - 1, hi)) == Due(sc, lo, Min(FirstOfYear(y) - 1, hi)) + YearlyHit(sc, lo, hi, y)
  {
    if YearOnCycle(sc, y) {
      YearlyYear(sc, lo, hi, y);
      var v := YearlyDate(sc, y);
      YearlyCandidates(sc, y);
      assert OnCycle(sc, v);
      assert DueIn(sc, lo, hi, v) == InWindow(sc, lo, hi, v);
    } else {
      YearlyOffYear(sc, lo, hi, y);
    }
  }

  /** Inside year y, a day is on cycle exactly when the year is and the day is its YEARLY date. */
  lemma YearlyCandidates(sc: Schedule, y: int)
    requires sc.rule.frequency == Yearly
    ensures FirstOfYear(y) <= YearlyDate(sc, y) <= FirstOfYear(y + 1) - 1
    ensures forall x :: FirstOfYear(y) <= x <= FirstOfYear(y + 1) - 1 ==>
      (OnCycle(sc, x) <==> YearOnCycle(sc, y) && x == YearlyDate(sc, y))
  {
    var s := Civil(sc.start);
    var d := Date(y, s.month, CoerceAtMost(s.day, LengthOfMonth(y, s.month)));
    CivilOfEpochDay(d);
    YearBounds(YearlyDate(sc, y));
    forall x | FirstOfYear(y) <= x <= FirstOfYear(y + 1) - 1
      ensures OnCycle(sc, x) <==> YearOnCycle(sc, y) && x == YearlyDate(sc, y)
    {
      YearOfDay(y, x);
      if OnCycle(sc, x) {
        CivilOfEpochDay(Civil(x));
      }
    }
  }

  /** In an on-cycle year, the only candidate is the clamped anniversary. */
  lemma YearlyYear(sc: Schedule, lo: int, hi: int, y: int)
    requires sc.rule.frequency == Yearly
    requires YearOnCycle(sc, y)
    ensures Due(sc, lo, Min(FirstOfYear(y + 1) - 1, hi)) == Due(sc, lo, Min(FirstOfYear(y) - 1, hi)) +
      When(DueIn(sc, lo, hi, YearlyDate(sc, y)), YearlyDate(sc, y))
  {
    var a, b, v := FirstOfYear(y), FirstOfYear(y + 1) - 1, YearlyDate(sc, y);
    assert a <= v <= b && forall x :: a <= x <= b && x != v ==> !Occurs(sc, x) by {
      YearlyCandidates(sc, y);
    }
    DueSingle(sc, lo, hi, a, b, v);
  }

  /** An off-cycle year adds nothing. */
  lemma YearlyOffYear(sc: Schedule, lo: int, hi: int, y: int)
    requires sc.rule.frequency == Yearly
    requires !YearOnCycle(sc, y)
    ensures Due(sc, lo, Min(FirstOfYear(y + 1) - 1, hi)) == Due(sc, lo, Min(FirstOfYear(y) - 1, hi))
  {
    YearStep(y);
    YearlyCandidates(sc, y);
    DueNone(sc, lo, hi, FirstOfYear(y), FirstOfYear(y + 1) - 1);
  }

  // ---------------------------------------------------------------------------
  // NONE, the frequencies the `when` does not name, and the dispatch

  /** NONE: the start date alone, when it passes `inWindow`. */
  lemma NoRepeatDue(sc: Schedule, lo: int, hi: int)
    requires sc.rule.frequency == NoRepeat
    ensures Due(sc, lo, hi) == When(InWindow(sc, lo, hi, sc.start), sc.start)
  {
    if hi < lo {
      DueEmpty(sc, lo, hi);
    } else if lo <= sc.start <= hi {
      DueSingle(sc, lo, hi, lo, hi, sc.start);
      DueEmpty(sc, lo, lo - 1);
      assert Min(hi, hi) == hi && Min(lo - 1, hi) == lo - 1;
    } else {
      DueNone(sc, lo, hi, lo, hi);
      DueEmpty(sc, lo, lo - 1);
      assert Min(hi, hi) == hi && Min(lo - 1, hi) == lo - 1;
    }
  }

  /** A frequency outside the five named ones yields nothing. */
  lemma OtherDue(sc: Schedule, lo: int, hi: int)
    requires sc.rule.frequency == Other
    ensures Due(sc, lo, hi) == []
  {
    if hi < lo {
      DueEmpty(sc, lo, hi);
    } else {
      DueNone(sc, lo, hi, lo, hi);
      DueEmpty(sc, lo, lo - 1);
      assert Min(hi, hi) == hi && Min(lo - 1, hi) == lo - 1;
    }
  }

  /**
   * The start date, the until date (absent when blank) and the rule of a task
   * whose startDate is not blank; a key that does not parse makes
   * parseDateKey throw.
   */
  function ScheduleOf(task: Task): Result<Schedule> {
    match ParseKey(task.startDate)
    case None => Failure("DateTimeParseException: startDate")
    case Some(start) =>
      if IsBlank(task.repeat.untilDate) then Ok(Schedule(start, None, task.repeat))
      else match ParseKey(task.repeat.untilDate)
        case None => Failure("DateTimeParseException: untilDate")
        case Some(until) => Ok(Schedule(start, Some(until), task.repeat))
  }

  /** What `occurrences(task, start, end)` returns: nothing for a blank start date, else the due dates. */
  function OccurrencesOf(task: Task, lo: int, hi: int): Result<seq<int>> {
    if IsBlank(task.startDate) then Ok([])
    else match ScheduleOf(task)
      case Failure(e) => Failure(e)
      case Ok(sc) => Ok(Due(sc, lo, hi))
  }

  /** `occurrences`: parse the keys, then run the branch of the task's frequency. */
  method Occurrences(task: Task, lo: int, hi: int) returns (r: Result<seq<int>>)
    ensures r == OccurrencesOf(task, lo, hi)
  {
    if IsBlank(task.startDate) {
      return Ok([]);
    }
    var parsed := ScheduleOf(task);
    if parsed.Failure? {
      return Failure(parsed.error);
    }
    var sc := parsed.value;
    var out: seq<int>;
    match sc.rule.frequency {
      case NoRepeat =>
        NoRepeatDue(sc, lo, hi);
        out := When(InWindow(sc, lo, hi, sc.start), sc.start);
      case Daily =>
        out := DailyOccurrences(sc, lo, hi);
      case Weekly =>
        out := WeeklyOccurrences(sc, lo, hi);
      case Monthly =>
        out := MonthlyOccurrences(sc, lo, hi);
      case Yearly =>
        out := YearlyOccurrences(sc, lo, hi);
      case Other =>
        OtherDue(sc, lo, hi);
        out := [];
    }
    return Ok(out);
  }

  /**
   * What a caller of `occurrences` can rely on: a blank start date gives the
   * empty list; it throws exactly when a non-blank start or until key does not
   * parse; otherwise every listed date lies in the window, is not before the
   * start date, not after the until date and on cycle, every such date is
   * listed, and the list is strictly ascending.
   */
  lemma OccurrencesContract(task: Task, lo: int, hi: int)
    ensures IsBlank(task.startDate) ==> OccurrencesOf(task, lo, hi) == Ok([])
    ensures OccurrencesOf(task, lo, hi).Failure? <==>
      !IsBlank(task.startDate) &&
      (ParseKey(task.startDate).None? || (!IsBlank(task.repeat.untilDate) && ParseKey(task.repeat.untilDate).None?))
    ensures !IsBlank(task.startDate) && ScheduleOf(task).Ok? ==>
      var sc := ScheduleOf(task).value;
      sc.start == ParseKey(task.startDate).value &&
      (sc.until.Some? <==> !IsBlank(task.repeat.untilDate)) &&
      (sc.until.Some? ==> sc.until == ParseKey(task.repeat.untilDate)) &&
      forall x :: x in OccurrencesOf(task, lo, hi).value <==> InWindow(sc, lo, hi, x) && OnCycle(sc, x)
    ensures OccurrencesOf(task, lo, hi).Ok? ==>
      var out := OccurrencesOf(task, lo, hi).value;
      forall i, j :: 0 <= i < j < |out| ==> out[i] < out[j]
  {
    if !IsBlank(task.startDate) && ScheduleOf(task).Ok? {
      var sc := ScheduleOf(task).value;
      forall x
        ensures x in Due(sc, lo, hi) <==> InWindow(sc, lo, hi, x) && OnCycle(sc, x)
      {
        DueMembership(sc, lo, hi, x);
      }
      DueSorted(sc, lo, hi);
    }
  }

  /** Whether d is among the occurrences of the one-day window [d, d]. */
  function OccursOn(task: Task, d: int): Result<bool> {
    match OccurrencesOf(task, d, d)
    case Failure(e) => Failure(e)
    case Ok(out) => Ok(d in out)
  }

  /**
   * Window independence: inside any window, a date is listed exactly when
   * the one-day window at that date lists it, so whether a date is due never
   * depends on the query window.
   */
  lemma WindowIndependent(task: Task, lo: int, hi: int, d: int)
    requires lo <= d <= hi
    ensures OccurrencesOf(task, lo, hi).Ok? <==> OccursOn(task, d).Ok?
    ensures OccurrencesOf(task, lo, hi).Ok? ==> (d in OccurrencesOf(task, lo, hi).value <==> OccursOn(task, d).value)
  {
    if !IsBlank(task.startDate) && ScheduleOf(task).Ok? {
      var sc := ScheduleOf(task).value;
      DueMembership(sc, lo, hi, d);
      DueMembership(sc, d, d, d);
    }
  }

  /** Two schedules with the same due dates list the same dates in every window. */
  lemma {:induction false} DueSameOccurs(sc: Schedule, sc': Schedule, lo: int, hi: int)
    requires forall x :: Occurs(sc, x) == Occurs(sc', x)
    ensures Due(sc, lo, hi) == Due(sc', lo, hi)
    decreases hi - lo
  {
    if hi >= lo {
      DueSameOccurs(sc, sc', lo, hi - 1);
    }
  }

  /** An interval of zero or less gives the same due dates as an interval of 1. */
  lemma IntervalAtMostZero(sc: Schedule, lo: int, hi: int)
    requires sc.rule.interval <= 0
    ensures Due(sc, lo, hi) == Due(sc.(rule := sc.rule.(interval := 1)), lo, hi)
  {
    var sc' := sc.(rule := sc.rule.(interval := 1));
    forall x
      ensures Occurs(sc, x) == Occurs(sc', x)
    {
      SameCycle(sc, sc', x);
    }
    DueSameOccurs(sc, sc', lo, hi);
  }

  /** Changing the stored interval without changing the step it stands for changes no due date. */
  lemma SameCycle(sc: Schedule, sc': Schedule, x: int)
    requires sc' == sc.(rule := sc'.rule)
    requires sc'.rule == sc.rule.(interval := sc'.rule.interval) && Interval(sc'.rule) == Interval(sc.rule)
    ensures Occurs(sc, x) == Occurs(sc', x)
  {
    assert WeekdaySet(sc') == WeekdaySet(sc) && MonthDay(sc') == MonthDay(sc);
    match sc.rule.frequency
    case NoRepeat =>
    case Daily =>
    case Weekly => assert WeeklyMatch(sc, x) == WeeklyMatch(sc', x);
    case Monthly => assert MonthlyMatch(sc, x) == MonthlyMatch(sc', x);
    case Yearly => assert YearlyMatch(sc, x) == YearlyMatch(sc', x);
    case Other =>
  }
}
