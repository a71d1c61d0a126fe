/**
 * BootReceiver.kt: after the device boots, initialize the document and
 * reschedule the alarms of every task that is not archived.
 *
 * The coroutine the receiver launches is run to completion here; a throw in
 * one rescheduleTask ends it, so the later tasks are not rescheduled.
 */
module BootReceiver {
  import opened RoutineProto
  import opened RoutineRepository
  import opened AlarmScheduler

  const BootCompleted := "android.intent.action.BOOT_COMPLETED"

  /** The boot loop: every task in document order, archived ones skipped, stopping at the first throw. */
  function Resync(exact: bool, today: int, now: int, t: Timers, tasks: seq<Task>): Outcome
    decreases |tasks|
  {
    if tasks == [] then Outcome(t, true)
    else
      var o := Resync(exact, today, now, t, tasks[..|tasks| - 1]);
      var task := tasks[|tasks| - 1];
      if !o.ok || task.archived then o
      else Reschedule(Pass(task, now, exact), o.timers, today, DaysAhead)
  }

  /** rescheduleTask for each of the given tasks in order, stopping at the first throw. */
  function RescheduleEach(exact: bool, today: int, now: int, t: Timers, tasks: seq<Task>): Outcome
    decreases |tasks|
  {
    if tasks == [] then Outcome(t, true)
    else
      var o := RescheduleEach(exact, today, now, t, tasks[..|tasks| - 1]);
      if !o.ok then o else Reschedule(Pass(tasks[|tasks| - 1], now, exact), o.timers, today, DaysAhead)
  }

  function Unarchived(tasks: seq<Task>): seq<Task> {
    Filter(tasks, (x: Task) => !x.archived)
  }

  /**
   * The boot loop reschedules exactly the tasks that are not archived, each
   * once and in document order: it is rescheduleTask applied to that
   * subsequence and to nothing else.
   */
  lemma {:induction false} ResyncIsUnarchivedInOrder(exact: bool, today: int, now: int, t: Timers, tasks: seq<Task>)
    ensures Resync(exact, today, now, t, tasks) == RescheduleEach(exact, today, now, t, Unarchived(tasks))
    decreases |tasks|
  {
    if tasks != [] {
      var init := tasks[..|tasks| - 1];
      var last := tasks[|tasks| - 1];
      ResyncIsUnarchivedInOrder(exact, today, now, t, init);
      UnarchivedSnoc(tasks);
      if !last.archived {
        RescheduleEachSnoc(exact, today, now, t, Unarchived(init), last);
      }
    }
  }

  /** Filtering a sequence with one more task keeps that task last exactly when it is not archived. */
  lemma UnarchivedSnoc(tasks: seq<Task>)
    requires tasks != []
    ensures var init, last := tasks[..|tasks| - 1], tasks[|tasks| - 1];
      Unarchived(tasks) == if last.archived then Unarchived(init) else Unarchived(init) + [last]
  {
    var init, last := tasks[..|tasks| - 1], tasks[|tasks| - 1];
    assert tasks == init + [last];
    FilterAppend(init, [last], (x: Task) => !x.archived);
    assert [last][1..] == [];
  }

  lemma RescheduleEachSnoc(exact: bool, today: int, now: int, t: Timers, u: seq<Task>, last: Task)
    ensures var o := RescheduleEach(exact, today, now, t, u);
      RescheduleEach(exact, today, now, t, u + [last]) ==
        if !o.ok then o else Reschedule(Pass(last, now, exact), o.timers, today, DaysAhead)
  {
    assert (u + [last])[..|u|] == u;
  }

  /** When every task is archived, booting leaves the alarms as they were. */
  lemma {:induction false} AllArchivedLeavesAlarms(exact: bool, today: int, now: int, t: Timers, tasks: seq<Task>)
    requires forall x :: x in tasks ==> x.archived
    ensures Resync(exact, today, now, t, tasks) == Outcome(t, true)
    decreases |tasks|
  {
    if tasks != [] {
      var init := tasks[..|tasks| - 1];
      assert forall x :: x in init ==> x in tasks;
      AllArchivedLeavesAlarms(exact, today, now, t, init);
      assert tasks[|tasks| - 1] in tasks;
    }
  }

  /** One more task of the boot loop: the loop so far, then that task unless it is archived or the loop has stopped. */
  lemma ResyncStep(exact: bool, today: int, now: int, t: Timers, tasks: seq<Task>, i: int)
    requires 0 <= i < |tasks|
    ensures var o := Resync(exact, today, now, t, tasks[..i]);
      Resync(exact, today, now, t, tasks[..i + 1]) ==
        if !o.ok || tasks[i].archived then o else Reschedule(Pass(tasks[i], now, exact), o.timers, today, DaysAhead)
  {
    assert tasks[..i + 1][..i] == tasks[..i];
  }

  /** After a throw, the later tasks of the boot loop are not rescheduled. */
  lemma {:induction false} ResyncAborted(exact: bool, today: int, now: int, t: Timers, a: seq<Task>, b: seq<Task>)
    requires a <= b && !Resync(exact, today, now, t, a).ok
    ensures Resync(exact, today, now, t, b) == Resync(exact, today, now, t, a)
    decreases |b|
  {
    if |b| > |a| {
      assert a <= b[..|b| - 1];
      ResyncAborted(exact, today, now, t, a, b[..|b| - 1]);
    } else {
      assert a == b;
    }
  }

  /**
   * onReceive: any other action does nothing; on BOOT_COMPLETED the document
   * is initialized first, then the tasks read from it are resynchronized.
   * The fresh list id, today and the current local minute are parameters.
   */
  method OnReceive(action: string, repo: Repository, am: AlarmManager, freshId: string, today: int, now: int)
    returns (ok: bool)
    modifies repo, am
    ensures am.exactPermitted == old(am.exactPermitted)
    ensures action != BootCompleted ==> ok && repo.doc == old(repo.doc) && am.timers == old(am.timers)
    ensures action == BootCompleted ==>
      repo.doc == AfterEnsureInitialized(old(repo.doc), freshId) &&
      Outcome(am.timers, ok) == Resync(old(am.exactPermitted), today, now, old(am.timers), repo.doc.tasks)
  {
    if action != BootCompleted {
      return true;
    }
    repo.EnsureInitialized(freshId);
    ok := ResyncAll(am, repo.doc.tasks, today, now);
  }

  /** The loop of onReceive over the tasks read after initialization. */
  method ResyncAll(am: AlarmManager, tasks: seq<Task>, today: int, now: int) returns (ok: bool)
    modifies am
    ensures am.exactPermitted == old(am.exactPermitted)
    ensures Outcome(am.timers, ok) == Resync(old(am.exactPermitted), today, now, old(am.timers), tasks)
  {
    ghost var exact := am.exactPermitted;
    ghost var t0 := am.timers;
    var i := 0;
    while i < |tasks|
      invariant 0 <= i <= |tasks|
      invariant am.exactPermitted == exact
      invariant Resync(exact, today, now, t0, tasks[..i]) == Outcome(am.timers, true)
    {
      var t := tasks[i];
      ResyncStep(exact, today, now, t0, tasks, i);
      if !t.archived {
        var fine := RescheduleTask(am, t, today, now, DaysAhead);
        if !fine {
          ResyncAborted(exact, today, now, t0, tasks[..i + 1], tasks);
          return false;
        }
      }
      i := i + 1;
    }
    assert tasks[..i] == tasks;
    return true;
  }
}
