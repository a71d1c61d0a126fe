/** Worked examples of the recurrence rules, on concrete dates. */
module RepeatExamples {
  import opened Wrappers
  import opened Calendar
  import opened RoutineProto
  import opened RepeatEngine

  /** DAILY every 2 days from z: the window [z, z + 9] lists z, z + 2, z + 4, z + 6 and z + 8. */
  lemma DailyEveryOtherDay(z: int)
    ensures Due(Schedule(z, None, RepeatRule(Daily, 2, [], 0, "")), z, z + 9) == [z, z + 2, z + 4, z + 6, z + 8]
  {
    var sc := Schedule(z, None, RepeatRule(Daily, 2, [], 0, ""));
    var hi := z + 9;
    DueEmpty(sc, z, z - 1);
    DailyStretch(sc, z, hi, z);
    DailyStretch(sc, z, hi, z + 2);
    DailyStretch(sc, z, hi, z + 4);
    DailyStretch(sc, z, hi, z + 6);
    DailyStretch(sc, z, hi, z + 8);
    assert Min(z - 1, hi) == z - 1 && Min(z + 9, hi) == hi;
  }

  /** MONTHLY from 2024-01-31: the 31st is clamped to February 29th in 2024, and March keeps the 31st. */
  lemma MonthlyFromJanuary31()
    ensures var sc := Schedule(EpochDay(2024, 1, 31), None, RepeatRule(Monthly, 1, [], 0, ""));
      Occurs(sc, EpochDay(2024, 2, 29)) && Occurs(sc, EpochDay(2024, 3, 31)) &&
      !Occurs(sc, EpochDay(2024, 2, 28))
  {
    CivilOfEpochDay(Date(2024, 1, 31));
    CivilOfEpochDay(Date(2024, 2, 29));
    CivilOfEpochDay(Date(2024, 3, 31));
    CivilOfEpochDay(Date(2024, 2, 28));
  }

  /** YEARLY from 2024-02-29: in the common year 2025 the date falls on February 28th. */
  lemma YearlyFromLeapDay()
    ensures var sc := Schedule(EpochDay(2024, 2, 29), None, RepeatRule(Yearly, 1, [], 0, ""));
      Occurs(sc, EpochDay(2025, 2, 28)) && !Occurs(sc, EpochDay(2025, 3, 1)) &&
      Occurs(sc, EpochDay(2028, 2, 29))
  {
    CivilOfEpochDay(Date(2024, 2, 29));
    CivilOfEpochDay(Date(2025, 2, 28));
    CivilOfEpochDay(Date(2025, 3, 1));
    CivilOfEpochDay(Date(2028, 2, 29));
  }

  /** Monday 2024-01-01, and the WEEKLY rule every second week on Monday, Wednesday and the out-of-range 9. */
  function MondayWednesday(): Schedule {
    Schedule(EpochDay(2024, 1, 1), None, RepeatRule(Weekly, 2, [1, 3, 9], 0, ""))
  }

  /** Wednesday of the first week and Monday of the third week are due. */
  lemma WeeklyOnWeeks()
    ensures var sc := MondayWednesday(); var z := sc.start;
      Occurs(sc, z + 2) && Occurs(sc, z + 14)
  {
    WeeklyFirstWednesday();
    WeeklyThirdMonday();
  }

  /** The Wednesday two days after the start is due. */
  lemma WeeklyFirstWednesday()
    ensures var sc := MondayWednesday(); Occurs(sc, sc.start + 2)
  {
    var sc := MondayWednesday();
    var z := sc.start;
    assert z == 19723;
    assert Weekday(z + 2) == 3;
    assert 3 in WeekdaySet(sc);
    assert WeeksFromStart(sc, z + 2) == 0;
  }

  /** The Monday two weeks after the start is due. */
  lemma WeeklyThirdMonday()
    ensures var sc := MondayWednesday(); Occurs(sc, sc.start + 14)
  {
    var sc := MondayWednesday();
    var z := sc.start;
    assert z == 19723;
    assert Weekday(z + 14) == 1;
    assert 1 in WeekdaySet(sc);
    assert WeeksFromStart(sc, z + 14) == 2;
  }

  /** Monday of the second week is off cycle, a Tuesday is no chosen day, and the 9 is dropped. */
  lemma WeeklyOffDays()
    ensures var sc := MondayWednesday(); var z := sc.start;
      !Occurs(sc, z + 7) && !Occurs(sc, z + 15) && 9 !in WeekdaySet(sc)
  {
    var sc := MondayWednesday();
    var z := sc.start;
    assert z == 19723;
    assert Weekday(z + 15) == 2;
    assert 2 !in WeekdaySet(sc);
    assert WeeksFromStart(sc, z + 7) == 1;
  }
}
