/**
 * The stored document (the protobuf messages of package
 * com.reachravi55.mydailyroutine.proto) as immutable values. Only the fields
 * the scheduling core reads or writes are kept.
 */
module RoutineProto {

  /** RepeatRule.Frequency; `Other` is any value the `when` in RepeatEngine does not name. */
  datatype Frequency = NoRepeat | Daily | Weekly | Monthly | Yearly | Other

  /**
   * How a task repeats. `weekdays` holds DayOfWeek numbers (1 = Monday) as
   * stored, possibly out of range; `dayOfMonth <= 0` and `interval <= 0`
   * mean "unset"; `untilDate` is a date key or blank.
   */
  datatype RepeatRule = RepeatRule(
    frequency: Frequency,
    interval: int,
    weekdays: seq<int>,
    dayOfMonth: int,
    untilDate: string)

  datatype Reminder = Reminder(hour: int, minute: int, enabled: bool)

  /** A task; `startDate` is a date key or blank. */
  datatype Task = Task(
    id: string,
    listId: string,
    title: string,
    startDate: string,
    repeat: RepeatRule,
    reminders: seq<Reminder>,
    archived: bool)

  datatype RoutineList = RoutineList(id: string, name: string, colorHex: string)

  datatype SubtaskState = SubtaskState(subtaskId: string, isCompleted: bool)

  /** Per-occurrence state of a task, keyed by (taskId, dateEpochDay). */
  datatype OccurrenceOverride = OccurrenceOverride(
    taskId: string,
    dateEpochDay: int,
    isCompleted: bool,
    note: string,
    subtaskStates: seq<SubtaskState>)

  datatype Settings = Settings(notificationsEnabled: bool)

  /** The whole document kept by the DataStore. */
  datatype RoutineStore = RoutineStore(
    lists: seq<RoutineList>,
    tasks: seq<Task>,
    overrides: seq<OccurrenceOverride>,
    activeListId: string,
    settings: Settings)
}
