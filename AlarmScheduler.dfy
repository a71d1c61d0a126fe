/**
 * AlarmScheduler.kt: arming the reminder alarms of one task for the dates it
 * is due in the next `daysAhead` days.
 *
 * The platform's AlarmManager is a map from request codes to pending alarms:
 * cancelling a request code removes its entry and arming one overwrites it
 * (FLAG_UPDATE_CURRENT). Instants are local minutes,
 * `epochDay * 1440 + hour * 60 + minute`; today's epoch day and the current
 * local minute are parameters. The specification `Apply` folds the
 * cancel-then-arm step over the (date, enabled reminder) slots of a pass.
 */
module AlarmScheduler {
  import opened Wrappers
  import opened KotlinText
  import opened DateUtils
  import opened RoutineProto
  import opened RepeatEngine

  /** The default horizon of rescheduleTask, in days after today. */
  const DaysAhead: int := 30

  /** The extras a reminder broadcast carries. */
  datatype ReminderIntent = ReminderIntent(taskId: string, title: string, date: string, hour: int, minute: int)

  /** One pending alarm: when it fires, whether it is exact, and what it delivers. */
  datatype Alarm = Alarm(at: int, exact: bool, intent: ReminderIntent)

  type Timers = map<int, Alarm>

  /** The system alarm service: pending alarms by request code, and whether exact alarms are permitted. */
  class AlarmManager {
    var timers: Timers
    var exactPermitted: bool

    constructor (timers0: Timers, exactPermitted0: bool)
      ensures timers == timers0 && exactPermitted == exactPermitted0
    {
      timers := timers0;
      exactPermitted := exactPermitted0;
    }

    /** `cancel(pi)`: the alarm under that request code, if any, is gone. */
    method Cancel(key: int)
      modifies this
      ensures timers == old(timers) - {key}
      ensures exactPermitted == old(exactPermitted)
    {
      timers := timers - {key};
    }

    /** `setExactAndAllowWhileIdle`: refused (SecurityException) when exact alarms are not permitted. */
    method SetExact(key: int, at: int, intent: ReminderIntent) returns (denied: bool)
      modifies this
      ensures denied == !exactPermitted
      ensures timers == if denied then old(timers) else old(timers)[key := Alarm(at, true, intent)]
      ensures exactPermitted == old(exactPermitted)
    {
      denied := !exactPermitted;
      if !denied {
        timers := timers[key := Alarm(at, true, intent)];
      }
    }

    /** `set`: an inexact alarm, always allowed. */
    method Set(key: int, at: int, intent: ReminderIntent)
      modifies this
      ensures timers == old(timers)[key := Alarm(at, false, intent)]
      ensures exactPermitted == old(exactPermitted)
    {
      timers := timers[key := Alarm(at, false, intent)];
    }
  }

  // ---------------------------------------------------------------------------
  // Keys and instants

  /** stableRequestCode: String.hashCode of "taskId|date|hour|minute", the date as its ISO key. */
  function RequestCode(taskId: string, date: int, hour: int, minute: int): (code: int)
    ensures -TwoTo31 <= code < TwoTo31
  {
    HashCode(taskId + "|" + FormatKey(date) + "|" + IntToString(hour) + "|" + IntToString(minute))
  }

  /** The hours and minutes LocalDateTime.of accepts; any other value throws DateTimeException. */
  predicate ValidTime(hour: int, minute: int) {
    0 <= hour <= 23 && 0 <= minute <= 59
  }

  /** The local minute of `date` at hour:minute. */
  function TriggerAt(date: int, hour: int, minute: int): (at: int)
    requires ValidTime(hour, minute)
    ensures date * 1440 <= at < (date + 1) * 1440
  {
    date * 1440 + hour * 60 + minute
  }

  /** LocalDate.plusDays on epoch days. */
  function PlusDays(date: int, days: int): int {
    date + days
  }

  // ---------------------------------------------------------------------------
  // The specification of one pass

  /** What stays fixed during one rescheduleTask: the task, the current local minute, the exact-alarm permission. */
  datatype Pass = Pass(task: Task, now: int, exact: bool)

  /** One (occurrence date, enabled reminder) pair the pass visits, with the request code it uses. */
  datatype Slot = Slot(key: int, date: int, reminder: Reminder)

  /** The state of the timers after a pass, and false when a step threw. */
  datatype Outcome = Outcome(timers: Timers, ok: bool)

  /** The slot of a task's reminder on a date. */
  function SlotOf(taskId: string, date: int, r: Reminder): Slot {
    Slot(RequestCode(taskId, date, r.hour, r.minute), date, r)
  }

  /** The enabled reminders of a date, in reminder order. */
  function Row(taskId: string, date: int, reminders: seq<Reminder>): seq<Slot>
    decreases |reminders|
  {
    if reminders == [] then []
    else
      var r := reminders[|reminders| - 1];
      Row(taskId, date, reminders[..|reminders| - 1]) + (if r.enabled then [SlotOf(taskId, date, r)] else [])
  }

  /** The slots of a pass: date by date, then reminder by reminder, disabled ones skipped. */
  function SlotsOf(taskId: string, dates: seq<int>, reminders: seq<Reminder>): seq<Slot>
    decreases |dates|
  {
    if dates == [] then [] else SlotsOf(taskId, dates[..|dates| - 1], reminders) + Row(taskId, dates[|dates| - 1], reminders)
  }

  /** A slot leaves an alarm behind when its time is valid and lies after now. */
  predicate Armed(p: Pass, s: Slot) {
    ValidTime(s.reminder.hour, s.reminder.minute) && TriggerAt(s.date, s.reminder.hour, s.reminder.minute) > p.now
  }

  /** The alarm a slot arms: exact when permitted, the inexact fallback otherwise. */
  function AlarmOf(p: Pass, s: Slot): Alarm
    requires ValidTime(s.reminder.hour, s.reminder.minute)
  {
    Alarm(TriggerAt(s.date, s.reminder.hour, s.reminder.minute), p.exact,
          ReminderIntent(p.task.id, p.task.title, FormatKey(s.date), s.reminder.hour, s.reminder.minute))
  }

  /** One slot: cancel its key, then arm it unless the time is invalid (throws) or not after now. */
  function Step(p: Pass, t: Timers, s: Slot): (o: Outcome)
    ensures o.ok <==> ValidTime(s.reminder.hour, s.reminder.minute)
    ensures s.key in o.timers <==> Armed(p, s)
    ensures Armed(p, s) ==> o.timers[s.key] == AlarmOf(p, s)
    ensures forall k :: k != s.key ==> (k in o.timers <==> k in t) && (k in t ==> o.timers[k] == t[k])
  {
    var key := s.key;
    var cleared := t - {key};
    if !ValidTime(s.reminder.hour, s.reminder.minute) then Outcome(cleared, false)
    else if !Armed(p, s) then Outcome(cleared, true)
    else Outcome(cleared[key := AlarmOf(p, s)], true)
  }

  /** The slots in order, stopping at the first step that throws. */
  function Apply(p: Pass, t: Timers, slots: seq<Slot>): Outcome
    decreases |slots|
  {
    if slots == [] then Outcome(t, true)
    else
      var o := Apply(p, t, slots[..|slots| - 1]);
      if !o.ok then o else Step(p, o.timers, slots[|slots| - 1])
  }

  /**
   * rescheduleTask: nothing happens for a task without reminders or without a
   * start date, a date key that does not parse throws before any alarm is
   * touched, and otherwise the slots of the due dates in
   * [today, today + daysAhead] are applied.
   */
  function Reschedule(p: Pass, t: Timers, today: int, daysAhead: int): (o: Outcome)
    ensures |p.task.reminders| == 0 || IsBlank(p.task.startDate) ==> o == Outcome(t, true)
    ensures |p.task.reminders| > 0 && OccurrencesOf(p.task, today, PlusDays(today, daysAhead)).Failure? ==> o == Outcome(t, false)
    ensures (forall r :: r in p.task.reminders ==> !r.enabled) ==> o.timers == t
  {
    if |p.task.reminders| == 0 || IsBlank(p.task.startDate) then Outcome(t, true)
    else match OccurrencesOf(p.task, today, PlusDays(today, daysAhead))
      case Failure(_) => Outcome(t, false)
      case Ok(dates) =>
        var slots := SlotsOf(p.task.id, dates, p.task.reminders);
        assert (forall r :: r in p.task.reminders ==> !r.enabled) ==> slots == [] by {
          if forall r :: r in p.task.reminders ==> !r.enabled {
            NoEnabledReminders(p.task.id, dates, p.task.reminders);
          }
        }
        Apply(p, t, slots)
  }

  lemma {:induction false} NoEnabledReminders(taskId: string, dates: seq<int>, reminders: seq<Reminder>)
    requires forall r :: r in reminders ==> !r.enabled
    ensures SlotsOf(taskId, dates, reminders) == []
    decreases |dates|
  {
    if dates != [] {
      NoEnabledReminders(taskId, dates[..|dates| - 1], reminders);
      NoEnabledRow(taskId, dates[|dates| - 1], reminders);
    }
  }

  lemma {:induction false} NoEnabledRow(taskId: string, date: int, reminders: seq<Reminder>)
    requires forall r :: r in reminders ==> !r.enabled
    ensures Row(taskId, date, reminders) == []
    decreases |reminders|
  {
    if reminders != [] {
      assert reminders[|reminders| - 1] in reminders;
      assert forall r :: r in reminders[..|reminders| - 1] ==> r in reminders;
      NoEnabledRow(taskId, date, reminders[..|reminders| - 1]);
    }
  }

  // ---------------------------------------------------------------------------
  // Properties of a pass

  /** The slots of a date are its enabled reminders, and nothing else. */
  lemma {:induction false} RowMembership(taskId: string, date: int, reminders: seq<Reminder>)
    ensures forall s :: s in Row(taskId, date, reminders) <==>
      s.reminder in reminders && s.reminder.enabled && s == SlotOf(taskId, date, s.reminder)
    decreases |reminders|
  {
    if reminders != [] {
      var init := reminders[..|reminders| - 1];
      RowMembership(taskId, date, init);
      assert reminders == init + [reminders[|reminders| - 1]];
    }
  }

  /**
   * The pass visits exactly the pairs of a due date and an enabled reminder:
   * disabled reminders and dates outside the list are never cancelled or armed.
   */
  lemma {:induction false} SlotsOfMembership(taskId: string, dates: seq<int>, reminders: seq<Reminder>)
    ensures forall s :: s in SlotsOf(taskId, dates, reminders) <==>
      s.date in dates && s.reminder in reminders && s.reminder.enabled && s == SlotOf(taskId, s.date, s.reminder)
    decreases |dates|
  {
    if dates != [] {
      var init := dates[..|dates| - 1];
      SlotsOfMembership(taskId, init, reminders);
      RowMembership(taskId, dates[|dates| - 1], reminders);
      assert dates == init + [dates[|dates| - 1]];
    }
  }

  /** Keys that no slot of the pass produces keep their alarm, or their absence. */
  lemma {:induction false} ApplyFrame(p: Pass, t: Timers, slots: seq<Slot>, k: int)
    requires forall s :: s in slots ==> s.key != k
    ensures k in Apply(p, t, slots).timers <==> k in t
    ensures k in t ==> Apply(p, t, slots).timers[k] == t[k]
    decreases |slots|
  {
    if slots != [] {
      var init := slots[..|slots| - 1];
      assert forall s :: s in init ==> s in slots;
      ApplyFrame(p, t, init, k);
      assert slots[|slots| - 1].key != k;
    }
  }

  /** The last slot of `slots` with key k, or -1. */
  function LastWith(slots: seq<Slot>, k: int): (i: int)
    ensures -1 <= i < |slots|
    ensures i >= 0 ==> slots[i].key == k
    ensures forall j :: i < j < |slots| ==> slots[j].key != k
    decreases |slots|
  {
    if slots == [] then -1
    else if slots[|slots| - 1].key == k then |slots| - 1
    else LastWith(slots[..|slots| - 1], k)
  }

  /**
   * In a pass that did not throw, the last slot with a key decides it: the key
   * holds that slot's alarm when its instant lies after now, and is absent
   * otherwise (the cancel before it ran). Slots that share a key, such as two
   * reminders at the same hour and minute, leave one alarm.
   */
  lemma {:induction false} ApplyLastDecides(p: Pass, t: Timers, slots: seq<Slot>, k: int)
    requires Apply(p, t, slots).ok
    requires LastWith(slots, k) >= 0
    ensures k in Apply(p, t, slots).timers <==> Armed(p, slots[LastWith(slots, k)])
    ensures k in Apply(p, t, slots).timers ==>
      Apply(p, t, slots).timers[k] == AlarmOf(p, slots[LastWith(slots, k)])
    decreases |slots|
  {
    var init := slots[..|slots| - 1];
    var last := slots[|slots| - 1];
    if last.key != k {
      ApplyLastDecides(p, t, init, k);
    }
  }

  /** After a step throws, the rest of the pass does not run. */
  lemma {:induction false} ApplyAborted(p: Pass, t: Timers, a: seq<Slot>, b: seq<Slot>)
    requires a <= b && !Apply(p, t, a).ok
    ensures Apply(p, t, b) == Apply(p, t, a)
    decreases |b|
  {
    if |b| > |a| {
      assert a <= b[..|b| - 1];
      ApplyAborted(p, t, a, b[..|b| - 1]);
    } else {
      assert a == b;
    }
  }

  lemma {:induction false} RowPrefix(taskId: string, date: int, reminders: seq<Reminder>, j: nat)
    requires j <= |reminders|
    ensures Row(taskId, date, reminders[..j]) <= Row(taskId, date, reminders)
    decreases |reminders|
  {
    if j < |reminders| {
      var init := reminders[..|reminders| - 1];
      assert reminders[..j] == init[..j];
      RowPrefix(taskId, date, init, j);
    } else {
      assert reminders[..j] == reminders;
    }
  }

  lemma {:induction false} SlotsPrefix(taskId: string, dates: seq<int>, reminders: seq<Reminder>, i: nat)
    requires i <= |dates|
    ensures SlotsOf(taskId, dates[..i], reminders) <= SlotsOf(taskId, dates, reminders)
    decreases |dates|
  {
    if i < |dates| {
      var init := dates[..|dates| - 1];
      assert dates[..i] == init[..i];
      SlotsPrefix(taskId, init, reminders, i);
    } else {
      assert dates[..i] == dates;
    }
  }

  /** One more reminder adds its slot to the row when it is enabled. */
  lemma RowStep(taskId: string, date: int, reminders: seq<Reminder>, j: nat)
    requires j < |reminders|
    ensures Row(taskId, date, reminders[..j + 1]) ==
      Row(taskId, date, reminders[..j]) + (if reminders[j].enabled then [SlotOf(taskId, date, reminders[j])] else [])
  {
    assert reminders[..j + 1][..j] == reminders[..j];
  }

  /** The pass over a row grows by the step of the next reminder when it is enabled. */
  lemma ApplyRowStep(p: Pass, t: Timers, taskId: string, date: int, reminders: seq<Reminder>, j: nat)
    requires j < |reminders|
    ensures var o := Apply(p, t, Row(taskId, date, reminders[..j]));
      Apply(p, t, Row(taskId, date, reminders[..j + 1])) ==
        if !reminders[j].enabled || !o.ok then o else Step(p, o.timers, SlotOf(taskId, date, reminders[j]))
  {
    var visited := Row(taskId, date, reminders[..j]);
    RowStep(taskId, date, reminders, j);
    if reminders[j].enabled {
      assert (visited + [SlotOf(taskId, date, reminders[j])])[..|visited|] == visited;
    } else {
      assert visited + [] == visited;
    }
  }

  /** Once a step of a row throws, the rest of the row does not run. */
  lemma ApplyRowAborted(p: Pass, t: Timers, taskId: string, date: int, reminders: seq<Reminder>, j: nat)
    requires j <= |reminders| && !Apply(p, t, Row(taskId, date, reminders[..j])).ok
    ensures Apply(p, t, Row(taskId, date, reminders)) == Apply(p, t, Row(taskId, date, reminders[..j]))
  {
    RowPrefix(taskId, date, reminders, j);
    ApplyAborted(p, t, Row(taskId, date, reminders[..j]), Row(taskId, date, reminders));
  }

  /** A pass over a + b is the pass over a, then, unless it threw, the pass over b from where a left off. */
  lemma {:induction false} ApplyAppend(p: Pass, t: Timers, a: seq<Slot>, b: seq<Slot>)
    ensures Apply(p, t, a + b) ==
      if Apply(p, t, a).ok then Apply(p, Apply(p, t, a).timers, b) else Apply(p, t, a)
    decreases |b|
  {
    if b == [] {
      assert a + b == a;
    } else {
      var init, last := b[..|b| - 1], b[|b| - 1];
      assert (a + b)[..|a + b| - 1] == a + init;
      assert (a + b)[|a + b| - 1] == last;
      ApplyAppend(p, t, a, init);
    }
  }

  // ---------------------------------------------------------------------------
  // The scheduler

  /** cancelAlarm. */
  method CancelAlarm(am: AlarmManager, taskId: string, date: int, hour: int, minute: int)
    modifies am
    ensures am.timers == old(am.timers) - {RequestCode(taskId, date, hour, minute)}
    ensures am.exactPermitted == old(am.exactPermitted)
  {
    var requestCode := RequestCode(taskId, date, hour, minute);
    am.Cancel(requestCode);
  }

  /**
   * scheduleAlarm: an invalid hour or minute throws (ok is false); an instant
   * not after now arms nothing; otherwise the exact alarm is tried first and
   * the inexact one set when it is refused.
   */
  method ScheduleAlarm(am: AlarmManager, now: int, taskId: string, title: string, date: int, hour: int, minute: int)
    returns (ok: bool)
    modifies am
    ensures ok == ValidTime(hour, minute)
    ensures am.exactPermitted == old(am.exactPermitted)
    ensures am.timers ==
      if ok && TriggerAt(date, hour, minute) > now then
        old(am.timers)[RequestCode(taskId, date, hour, minute) :=
          Alarm(TriggerAt(date, hour, minute), old(am.exactPermitted), ReminderIntent(taskId, title, FormatKey(date), hour, minute))]
      else old(am.timers)
  {
    if !ValidTime(hour, minute) {
      return false;
    }
    var trigger := TriggerAt(date, hour, minute);
    if trigger <= now {
      return true;
    }
    var requestCode := RequestCode(taskId, date, hour, minute);
    var intent := ReminderIntent(taskId, title, FormatKey(date), hour, minute);
    var denied := am.SetExact(requestCode, trigger, intent);
    if denied {
      am.Set(requestCode, trigger, intent);
    }
    return true;
  }

  /** The dates of the pass are those `occurrences` listed, so the pass is their slots applied. */
  lemma RescheduleDates(p: Pass, t: Timers, today: int, daysAhead: int, occ: Result<seq<int>>)
    requires |p.task.reminders| > 0 && !IsBlank(p.task.startDate)
    requires occ == OccurrencesOf(p.task, today, PlusDays(today, daysAhead)) && occ.Ok?
    ensures Reschedule(p, t, today, daysAhead) == Apply(p, t, SlotsOf(p.task.id, occ.value, p.task.reminders))
  {
  }

  /** rescheduleTask, with today's epoch day and the current local minute passed in. */
  method RescheduleTask(am: AlarmManager, task: Task, today: int, now: int, daysAhead: int) returns (ok: bool)
    modifies am
    ensures am.exactPermitted == old(am.exactPermitted)
    ensures Outcome(am.timers, ok) == Reschedule(Pass(task, now, old(am.exactPermitted)), old(am.timers), today, daysAhead)
  {
    if |task.reminders| == 0 {
      return true;
    }
    if IsBlank(task.startDate) {
      return true;
    }
    var end := PlusDays(today, daysAhead);
    var occDates := Occurrences(task, today, end);
    if occDates.Failure? {
      return false;
    }
    RescheduleDates(Pass(task, now, am.exactPermitted), am.timers, today, daysAhead, occDates);
    ok := ArmOccurrences(am, task, now, occDates.value);
  }

  /**
   * The loop of rescheduleTask over the occurrence dates; a throw ends the
   * pass.
   */
  method ArmOccurrences(am: AlarmManager, task: Task, now: int, dates: seq<int>) returns (ok: bool)
    modifies am
    ensures am.exactPermitted == old(am.exactPermitted)
    ensures Outcome(am.timers, ok) == Apply(Pass(task, now, old(am.exactPermitted)), old(am.timers), SlotsOf(task.id, dates, task.reminders))
  {
    ghost var p := Pass(task, now, am.exactPermitted);
    ghost var t0 := am.timers;
    var i := 0;
    while i < |dates|
      invariant 0 <= i <= |dates|
      invariant am.exactPermitted == p.exact
      invariant Apply(p, t0, SlotsOf(task.id, dates[..i], task.reminders)) == Outcome(am.timers, true)
    {
      ghost var before := SlotsOf(task.id, dates[..i], task.reminders);
      ghost var t1 := am.timers;
      var fine := ArmDate(am, task, now, dates[i]);
      ApplyAppend(p, t0, before, Row(task.id, dates[i], task.reminders));
      assert dates[..i + 1][..i] == dates[..i];
      assert SlotsOf(task.id, dates[..i + 1], task.reminders) == before + Row(task.id, dates[i], task.reminders);
      if !fine {
        SlotsPrefix(task.id, dates, task.reminders, i + 1);
        ApplyAborted(p, t0, SlotsOf(task.id, dates[..i + 1], task.reminders), SlotsOf(task.id, dates, task.reminders));
        return false;
      }
      i := i + 1;
    }
    assert dates[..i] == dates;
    return true;
  }

  /**
   * The inner loop of rescheduleTask, for one date: each enabled reminder has
   * its request code cancelled and is scheduled again; a throw ends the pass.
   */
  method ArmDate(am: AlarmManager, task: Task, now: int, d: int) returns (ok: bool)
    modifies am
    ensures am.exactPermitted == old(am.exactPermitted)
    ensures Outcome(am.timers, ok) == Apply(Pass(task, now, old(am.exactPermitted)), old(am.timers), Row(task.id, d, task.reminders))
  {
    var reminders := task.reminders;
    ghost var p := Pass(task, now, am.exactPermitted);
    ghost var t1 := am.timers;
    var j := 0;
    assert reminders[..0] == [];
    while j < |reminders|
      invariant 0 <= j <= |reminders|
      invariant am.exactPermitted == p.exact
      invariant Apply(p, t1, Row(task.id, d, reminders[..j])) == Outcome(am.timers, true)
    {
      var r := reminders[j];
      if r.enabled {
        ApplyRowStep(p, t1, task.id, d, reminders, j);
        var fine := Rearm(am, task, now, d, r);
        if !fine {
          ApplyRowAborted(p, t1, task.id, d, reminders, j + 1);
          return false;
        }
      } else {
        ApplyRowStep(p, t1, task.id, d, reminders, j);
      }
      j := j + 1;
    }
    assert reminders[..j] == reminders;
    return true;
  }

  /** The body of the inner loop for an enabled reminder: cancel its request code, then schedule it. */
  method Rearm(am: AlarmManager, task: Task, now: int, d: int, r: Reminder) returns (ok: bool)
    modifies am
    ensures am.exactPermitted == old(am.exactPermitted)
    ensures Outcome(am.timers, ok) == Step(Pass(task, now, old(am.exactPermitted)), old(am.timers), SlotOf(task.id, d, r))
  {
    CancelAlarm(am, task.id, d, r.hour, r.minute);
    ok := ScheduleAlarm(am, now, task.id, task.title, d, r.hour, r.minute);
  }
}
