/**
 * RoutineRepository.kt: each public operation hands one transform to
 * `store.updateData`, which applies it atomically to the stored RoutineStore
 * document. Each transform is a function `After...` from the old document to
 * the new one; the class `Repository` holds the document and its methods apply
 * those transforms. Fresh ids (`Ids.id()`) are parameters.
 */
module RoutineRepository {
  import opened Wrappers
  import opened KotlinText
  import opened RoutineProto

  // ---------------------------------------------------------------------------
  // Kotlin collection selections

  /** `indexOfFirst`: the first index whose element satisfies p, or -1. */
  function IndexOfFirst<T>(s: seq<T>, p: T -> bool): (i: int)
    ensures -1 <= i < |s|
    ensures i >= 0 ==> p(s[i])
    ensures forall j :: 0 <= j < |s| && (i < 0 || j < i) ==> !p(s[j])
    decreases |s|
  {
    if |s| == 0 then -1
    else if p(s[0]) then 0
    else
      var k := IndexOfFirst(s[1..], p);
      if k < 0 then -1 else k + 1
  }

  /** `filter` (and `filterNot` with the negated test): the elements that pass, in their order. */
  function Filter<T(!new)>(s: seq<T>, keep: T -> bool): (r: seq<T>)
    ensures |r| <= |s|
    ensures forall x :: x in r <==> x in s && keep(x)
    decreases |s|
  {
    if |s| == 0 then [] else (if keep(s[0]) then [s[0]] else []) + Filter(s[1..], keep)
  }

  /** Filtering keeps relative order: the kept part of a prefix comes before the kept part of the rest. */
  lemma {:induction false} FilterAppend<T(!new)>(a: seq<T>, b: seq<T>, keep: T -> bool)
    ensures Filter(a + b, keep) == Filter(a, keep) + Filter(b, keep)
    decreases |a|
  {
    if |a| > 0 {
      assert (a + b)[0] == a[0] && (a + b)[1..] == a[1..] + b;
      FilterAppend(a[1..], b, keep);
    } else {
      assert a + b == b;
    }
  }

  /** The positions of s whose elements pass, in increasing order. */
  function KeptPositions<T>(s: seq<T>, keep: T -> bool): (ps: seq<int>)
    ensures forall k :: 0 <= k < |ps| ==> 0 <= ps[k] < |s| && keep(s[ps[k]])
    ensures forall i :: 0 <= i < |s| && keep(s[i]) ==> i in ps
    ensures forall k, l :: 0 <= k < l < |ps| ==> ps[k] < ps[l]
    decreases |s|
  {
    if |s| == 0 then []
    else
      var init, n := s[..|s| - 1], |s| - 1;
      var ps := KeptPositions(init, keep);
      assert forall k :: 0 <= k < |ps| ==> ps[k] < n && s[ps[k]] == init[ps[k]];
      ps + (if keep(s[n]) then [n] else [])
  }

  /**
   * Filtering keeps the passing elements in their order and each exactly
   * once: the k-th element of the result is the element at the k-th passing
   * position.
   */
  lemma {:induction false} FilterPicks<T(!new)>(s: seq<T>, keep: T -> bool)
    ensures var r, ps := Filter(s, keep), KeptPositions(s, keep);
      |r| == |ps| && forall k :: 0 <= k < |r| ==> r[k] == s[ps[k]]
    decreases |s|
  {
    if |s| > 0 {
      var init, last := s[..|s| - 1], s[|s| - 1];
      assert s == init + [last];
      FilterAppend(init, [last], keep);
      FilterPicks(init, keep);
      assert Filter([last], keep) == if keep(last) then [last] else [] by {
        assert [last][1..] == [];
      }
    }
  }

  /** The first element a filter keeps is the one `indexOfFirst` finds. */
  lemma {:induction false} FilterFirst<T(!new)>(s: seq<T>, keep: T -> bool)
    ensures |Filter(s, keep)| > 0 <==> IndexOfFirst(s, keep) >= 0
    ensures |Filter(s, keep)| > 0 ==> Filter(s, keep)[0] == s[IndexOfFirst(s, keep)]
    decreases |s|
  {
    if |s| > 0 && !keep(s[0]) {
      FilterFirst(s[1..], keep);
    }
  }

  /** When every element passes, filtering changes nothing. */
  lemma {:induction false} FilterKeepsAll<T(!new)>(s: seq<T>, keep: T -> bool)
    requires forall x :: x in s ==> keep(x)
    ensures Filter(s, keep) == s
    decreases |s|
  {
    if |s| > 0 {
      assert forall x :: x in s[1..] ==> x in s;
      FilterKeepsAll(s[1..], keep);
    }
  }

  // ---------------------------------------------------------------------------
  // The document

  const DefaultListName := "Default"
  const DefaultColorHex := "#4F46E5"

  /** The usable starting state `ensureInitialized` sets up: a list exists and an active id is chosen. */
  predicate IsInitialized(s: RoutineStore) {
    |s.lists| > 0 && !IsBlank(s.activeListId)
  }

  /** The ids of some tasks. */
  function TaskIds(tasks: seq<Task>): set<string> {
    set t | t in tasks :: t.id
  }

  /** Every occurrence override belongs to a task of the document. */
  predicate OverridesOwned(s: RoutineStore) {
    forall o :: o in s.overrides ==> o.taskId in TaskIds(s.tasks)
  }

  function ListIndex(lists: seq<RoutineList>, listId: string): int {
    IndexOfFirst(lists, (l: RoutineList) => l.id == listId)
  }

  function TaskIndex(tasks: seq<Task>, taskId: string): int {
    IndexOfFirst(tasks, (t: Task) => t.id == taskId)
  }

  /** The override keyed by (taskId, dateEpochDay), as `indexOfFirst` finds it. */
  function OverrideIndex(overrides: seq<OccurrenceOverride>, taskId: string, day: int): int {
    IndexOfFirst(overrides, (o: OccurrenceOverride) => o.taskId == taskId && o.dateEpochDay == day)
  }

  function StateIndex(states: seq<SubtaskState>, subtaskId: string): int {
    IndexOfFirst(states, (st: SubtaskState) => st.subtaskId == subtaskId)
  }

  // ---------------------------------------------------------------------------
  // ensureInitialized

  /**
   * ensureInitialized: an initialized document is returned as is; otherwise
   * the first list is reused (a "Default" list with the fresh id is added
   * only when there is none) and a blank active id is set to that list.
   */
  function AfterEnsureInitialized(s: RoutineStore, freshId: string): (r: RoutineStore)
    ensures IsInitialized(s) ==> r == s
    ensures r.tasks == s.tasks && r.overrides == s.overrides && r.settings == s.settings
    ensures |s.lists| > 0 ==> r.lists == s.lists
    ensures |s.lists| == 0 ==> r.lists == [RoutineList(freshId, DefaultListName, DefaultColorHex)]
    ensures !IsBlank(s.activeListId) ==> r.activeListId == s.activeListId
    ensures IsBlank(s.activeListId) ==> r.activeListId == r.lists[0].id
    ensures !IsBlank(freshId) && (|s.lists| == 0 || !IsBlank(s.lists[0].id)) ==> IsInitialized(r)
  {
    if IsInitialized(s) then s
    else
      var lists := if |s.lists| > 0 then s.lists else [RoutineList(freshId, DefaultListName, DefaultColorHex)];
      var listId := lists[0].id;
      s.(lists := lists, activeListId := if IsBlank(s.activeListId) then listId else s.activeListId)
  }

  /** Running ensureInitialized a second time changes nothing once the first run could pick a usable id. */
  lemma EnsureInitializedIdempotent(s: RoutineStore, freshId: string, freshId': string)
    requires !IsBlank(freshId) && (|s.lists| == 0 || !IsBlank(s.lists[0].id))
    ensures AfterEnsureInitialized(AfterEnsureInitialized(s, freshId), freshId') == AfterEnsureInitialized(s, freshId)
  {
  }

  // ---------------------------------------------------------------------------
  // Lists

  /** createList: append the list with the trimmed name; make it active when asked. */
  function AfterCreateList(s: RoutineStore, id: string, name: string, colorHex: string, makeActive: bool): (r: RoutineStore)
    ensures |r.lists| == |s.lists| + 1 && r.lists[..|s.lists|] == s.lists
    ensures r.lists[|s.lists|] == RoutineList(id, Trim(name), colorHex)
    ensures r.activeListId == id <==> makeActive || s.activeListId == id
    ensures !makeActive ==> r.activeListId == s.activeListId
    ensures IsInitialized(s) && !IsBlank(id) ==> IsInitialized(r)
    ensures r.tasks == s.tasks && r.overrides == s.overrides && r.settings == s.settings
  {
    s.(lists := s.lists + [RoutineList(id, Trim(name), colorHex)],
       activeListId := if makeActive then id else s.activeListId)
  }

  /** renameList: the first list with that id gets the trimmed name; nothing else changes. */
  function AfterRenameList(s: RoutineStore, listId: string, name: string): (r: RoutineStore)
    ensures |r.lists| == |s.lists|
    ensures ListIndex(s.lists, listId) >= 0 ==>
      r.lists[ListIndex(s.lists, listId)] == s.lists[ListIndex(s.lists, listId)].(name := Trim(name))
    ensures forall j :: 0 <= j < |s.lists| && j != ListIndex(s.lists, listId) ==> r.lists[j] == s.lists[j]
    ensures (forall l :: l in s.lists ==> l.id != listId) ==> r == s
    ensures r.tasks == s.tasks && r.overrides == s.overrides && r.activeListId == s.activeListId && r.settings == s.settings
  {
    var idx := ListIndex(s.lists, listId);
    if idx >= 0 then s.(lists := s.lists[idx := s.lists[idx].(name := Trim(name))]) else s
  }

  /** setActiveList: the active id becomes listId, whether or not a list has it. */
  function AfterSetActiveList(s: RoutineStore, listId: string): (r: RoutineStore)
    ensures r.activeListId == listId
    ensures r.lists == s.lists && r.tasks == s.tasks && r.overrides == s.overrides && r.settings == s.settings
  {
    if s.activeListId == listId then s else s.(activeListId := listId)
  }

  // The tests deleteList and deleteTask filter by.
  function OtherList(listId: string): RoutineList -> bool { (l: RoutineList) => l.id != listId }
  function OutsideList(listId: string): Task -> bool { (t: Task) => t.listId != listId }
  function OwnedBy(ids: set<string>): OccurrenceOverride -> bool { (o: OccurrenceOverride) => o.taskId in ids }
  function OtherTask(taskId: string): Task -> bool { (t: Task) => t.id != taskId }
  function NotOverrideOf(taskId: string): OccurrenceOverride -> bool { (o: OccurrenceOverride) => o.taskId != taskId }

  /** The id deleteList makes active when the active list is the deleted one: the first remaining list's, or blank. */
  function FirstOtherListId(lists: seq<RoutineList>, listId: string): string {
    var i := IndexOfFirst(lists, OtherList(listId));
    if i >= 0 then lists[i].id else ""
  }

  /**
   * The transform of deleteList: drop the list, the tasks of that list and
   * every override whose task is no longer there; keep an active id naming
   * another list, else pick the first remaining list (or blank).
   */
  function AfterRemoveList(s: RoutineStore, listId: string): (r: RoutineStore)
    ensures forall l :: l in r.lists <==> l in s.lists && l.id != listId
    ensures forall t :: t in r.tasks <==> t in s.tasks && t.listId != listId
    ensures forall o :: o in r.overrides <==> o in s.overrides && o.taskId in TaskIds(r.tasks)
    ensures OverridesOwned(r)
    ensures s.activeListId != listId ==> r.activeListId == s.activeListId
    ensures s.activeListId == listId ==> r.activeListId == FirstOtherListId(s.lists, listId)
    ensures r.lists == Filter(s.lists, OtherList(listId)) && r.tasks == Filter(s.tasks, OutsideList(listId))
    ensures r.overrides == Filter(s.overrides, OwnedBy(TaskIds(r.tasks)))
    ensures r.settings == s.settings
  {
    var lists := Filter(s.lists, OtherList(listId));
    var tasks := Filter(s.tasks, OutsideList(listId));
    var overrides := Filter(s.overrides, OwnedBy(TaskIds(tasks)));
    FilterFirst(s.lists, OtherList(listId));
    var nextActive := if s.activeListId != listId then s.activeListId else if |lists| > 0 then lists[0].id else "";
    RoutineStore(lists, tasks, overrides, nextActive, s.settings)
  }

  /** deleteList: the transform above, then ensureInitialized (a second update). */
  function AfterDeleteList(s: RoutineStore, listId: string, freshId: string): RoutineStore {
    AfterEnsureInitialized(AfterRemoveList(s, listId), freshId)
  }

  /**
   * After deleteList no task of that list and no override of a removed task
   * is left, every override belongs to a task, the lists are the others (or
   * only a fresh "Default" list when none is left), and the document is
   * initialized when the ids it can pick are usable.
   */
  lemma DeleteListContract(s: RoutineStore, listId: string, freshId: string)
    ensures var r := AfterDeleteList(s, listId, freshId);
      (forall t :: t in r.tasks <==> t in s.tasks && t.listId != listId) &&
      OverridesOwned(r) &&
      (forall l :: l in r.lists && l.id == listId ==> l.id == freshId) &&
      (!IsBlank(freshId) && (forall l :: l in s.lists && l.id != listId ==> !IsBlank(l.id)) ==> IsInitialized(r)) &&
      (s.activeListId != listId && !IsBlank(s.activeListId) ==> r.activeListId == s.activeListId)
    ensures var r, others := AfterDeleteList(s, listId, freshId), Filter(s.lists, OtherList(listId));
      r.tasks == Filter(s.tasks, OutsideList(listId)) &&
      (|others| > 0 ==> r.lists == others) &&
      (|others| == 0 ==> r.lists == [RoutineList(freshId, DefaultListName, DefaultColorHex)]) &&
      (s.activeListId == listId ==> r.activeListId == if |others| > 0 then FirstOtherListId(s.lists, listId) else freshId)
  {
    var m := AfterRemoveList(s, listId);
    FilterFirst(s.lists, OtherList(listId));
    if |m.lists| > 0 {
      assert m.lists[0] in m.lists;
    }
  }

  // ---------------------------------------------------------------------------
  // Tasks

  /** createOrUpdateTask: replace the first task with that id in place, or append the task. */
  function AfterCreateOrUpdateTask(s: RoutineStore, task: Task): (r: RoutineStore)
    ensures task in r.tasks
    ensures TaskIndex(s.tasks, task.id) >= 0 ==> |r.tasks| == |s.tasks| && r.tasks[TaskIndex(s.tasks, task.id)] == task
    ensures TaskIndex(s.tasks, task.id) < 0 ==> r.tasks == s.tasks + [task]
    ensures forall j :: 0 <= j < |s.tasks| && j != TaskIndex(s.tasks, task.id) ==> r.tasks[j] == s.tasks[j]
    ensures r.lists == s.lists && r.overrides == s.overrides && r.activeListId == s.activeListId && r.settings == s.settings
  {
    var idx := TaskIndex(s.tasks, task.id);
    var tasks := if idx >= 0 then s.tasks[idx := task] else s.tasks + [task];
    assert tasks[if idx >= 0 then idx else |s.tasks|] == task;
    s.(tasks := tasks)
  }

  /** Saving the same task twice is the same as saving it once. */
  lemma CreateOrUpdateTaskIdempotent(s: RoutineStore, task: Task)
    ensures AfterCreateOrUpdateTask(AfterCreateOrUpdateTask(s, task), task) == AfterCreateOrUpdateTask(s, task)
  {
    var r := AfterCreateOrUpdateTask(s, task);
    var i := TaskIndex(s.tasks, task.id);
    var k := if i >= 0 then i else |s.tasks|;
    assert r.tasks[k] == task;
    SameFirstIndex(s.tasks, r.tasks, task.id, k);
    assert r.tasks[k := task] == r.tasks;
  }

  /** Both task sequences agree before k and hold a task with the id at k, so the first index is k in the second. */
  lemma SameFirstIndex(a: seq<Task>, b: seq<Task>, id: string, k: int)
    requires 0 <= k < |b| && k <= |a| && b[k].id == id
    requires forall j :: 0 <= j < k ==> a[j] == b[j]
    requires TaskIndex(a, id) == k || (TaskIndex(a, id) < 0 && k == |a|)
    ensures TaskIndex(b, id) == k
  {
  }

  /** deleteTask: drop every task with that id and every override of it; lists and settings stay. */
  function AfterDeleteTask(s: RoutineStore, taskId: string): (r: RoutineStore)
    ensures forall t :: t in r.tasks <==> t in s.tasks && t.id != taskId
    ensures forall o :: o in r.overrides <==> o in s.overrides && o.taskId != taskId
    ensures r.tasks == Filter(s.tasks, OtherTask(taskId)) && r.overrides == Filter(s.overrides, NotOverrideOf(taskId))
    ensures OverridesOwned(s) ==> OverridesOwned(r)
    ensures r.lists == s.lists && r.activeListId == s.activeListId && r.settings == s.settings
  {
    var tasks := Filter(s.tasks, OtherTask(taskId));
    var overrides := Filter(s.overrides, NotOverrideOf(taskId));
    assert forall o :: o in overrides && o.taskId in TaskIds(s.tasks) ==> o.taskId in TaskIds(tasks) by {
      forall o | o in overrides && o.taskId in TaskIds(s.tasks)
        ensures o.taskId in TaskIds(tasks)
      {
        var t :| t in s.tasks && t.id == o.taskId;
        assert t in tasks;
      }
    }
    s.(tasks := tasks, overrides := overrides)
  }

  /** Deleting a task that is not there leaves the document exactly as it was, order included. */
  lemma DeleteAbsentTask(s: RoutineStore, taskId: string)
    requires forall t :: t in s.tasks ==> t.id != taskId
    requires forall o :: o in s.overrides ==> o.taskId != taskId
    ensures AfterDeleteTask(s, taskId) == s
  {
    FilterKeepsAll(s.tasks, OtherTask(taskId));
    FilterKeepsAll(s.overrides, NotOverrideOf(taskId));
  }

  // ---------------------------------------------------------------------------
  // Occurrence overrides

  /** The override a (taskId, day) key names: the first one with that key. */
  function OverrideFor(overrides: seq<OccurrenceOverride>, taskId: string, day: int): (r: Option<OccurrenceOverride>)
    ensures r.Some? ==> r.value in overrides && r.value.taskId == taskId && r.value.dateEpochDay == day
    ensures r.None? <==> forall o :: o in overrides ==> !(o.taskId == taskId && o.dateEpochDay == day)
  {
    var i := OverrideIndex(overrides, taskId, day);
    if i >= 0 then Some(overrides[i]) else None
  }

  /** setTaskCompleted: set isCompleted of the override with that key, or append a new override. */
  function AfterSetTaskCompleted(s: RoutineStore, taskId: string, day: int, isCompleted: bool): (r: RoutineStore)
    ensures OverrideIndex(s.overrides, taskId, day) >= 0 ==> |r.overrides| == |s.overrides|
    ensures OverrideIndex(s.overrides, taskId, day) < 0 ==>
      r.overrides == s.overrides + [OccurrenceOverride(taskId, day, isCompleted, "", [])]
    ensures forall j :: 0 <= j < |s.overrides| && j != OverrideIndex(s.overrides, taskId, day) ==> r.overrides[j] == s.overrides[j]
    ensures r.lists == s.lists && r.tasks == s.tasks && r.activeListId == s.activeListId && r.settings == s.settings
  {
    var idx := OverrideIndex(s.overrides, taskId, day);
    if idx >= 0 then
      s.(overrides := s.overrides[idx := s.overrides[idx].(isCompleted := isCompleted)])
    else
      s.(overrides := s.overrides + [OccurrenceOverride(taskId, day, isCompleted, "", [])])
  }

  /**
   * Reading back after setTaskCompleted: the key now names an override with
   * the new isCompleted, keeping the old override's note and subtask states
   * (none for a new one); every other key names what it named before.
   */
  lemma SetTaskCompletedReadBack(s: RoutineStore, taskId: string, day: int, isCompleted: bool, taskId': string, day': int)
    ensures var r := AfterSetTaskCompleted(s, taskId, day, isCompleted);
      OverrideFor(r.overrides, taskId, day) ==
        Some(match OverrideFor(s.overrides, taskId, day)
             case Some(o) => o.(isCompleted := isCompleted)
             case None => OccurrenceOverride(taskId, day, isCompleted, "", []))
    ensures (taskId', day') != (taskId, day) ==>
      OverrideFor(AfterSetTaskCompleted(s, taskId, day, isCompleted).overrides, taskId', day') == OverrideFor(s.overrides, taskId', day')
  {
    var os := s.overrides;
    var r := AfterSetTaskCompleted(s, taskId, day, isCompleted);
    var i := OverrideIndex(os, taskId, day);
    var k := if i >= 0 then i else |os|;
    OverrideIndexAfterWrite(os, r.overrides, taskId, day, k);
    if (taskId', day') != (taskId, day) {
      OtherKeyAfterWrite(os, r.overrides, taskId, day, k, taskId', day');
    }
  }

  /** Writing the override at the key's own position (or appending it) keeps it the first with that key. */
  lemma OverrideIndexAfterWrite(a: seq<OccurrenceOverride>, b: seq<OccurrenceOverride>, taskId: string, day: int, k: int)
    requires 0 <= k < |b| && k <= |a| && b[k].taskId == taskId && b[k].dateEpochDay == day
    requires forall j :: 0 <= j < k ==> a[j] == b[j]
    requires OverrideIndex(a, taskId, day) == k || (OverrideIndex(a, taskId, day) < 0 && k == |a|)
    ensures OverrideIndex(b, taskId, day) == k
  {
  }

  /** An override written under one key leaves the first index of every other key where it was. */
  lemma OtherKeyAfterWrite(a: seq<OccurrenceOverride>, b: seq<OccurrenceOverride>, taskId: string, day: int, k: int,
                           taskId': string, day': int)
    requires 0 <= k < |b| && k <= |a| && |b| == (if k == |a| then |a| + 1 else |a|)
    requires b[k].taskId == taskId && b[k].dateEpochDay == day
    requires k < |a| ==> a[k].taskId == taskId && a[k].dateEpochDay == day
    requires forall j :: 0 <= j < |a| && j != k ==> a[j] == b[j]
    requires (taskId', day') != (taskId, day)
    ensures OverrideFor(b, taskId', day') == OverrideFor(a, taskId', day')
  {
  }

  /** Marking the same occurrence twice is the same as marking it once. */
  lemma SetTaskCompletedIdempotent(s: RoutineStore, taskId: string, day: int, isCompleted: bool)
    ensures AfterSetTaskCompleted(AfterSetTaskCompleted(s, taskId, day, isCompleted), taskId, day, isCompleted) ==
      AfterSetTaskCompleted(s, taskId, day, isCompleted)
  {
    var os := s.overrides;
    var r := AfterSetTaskCompleted(s, taskId, day, isCompleted);
    var i := OverrideIndex(os, taskId, day);
    var k := if i >= 0 then i else |os|;
    OverrideIndexAfterWrite(os, r.overrides, taskId, day, k);
    assert r.overrides[k := r.overrides[k].(isCompleted := isCompleted)] == r.overrides;
  }

  /** The subtask-state list after setting one subtask: replace the first state with that id, or append one. */
  function SetSubtaskState(states: seq<SubtaskState>, subtaskId: string, isCompleted: bool): (r: seq<SubtaskState>)
    ensures StateIndex(r, subtaskId) >= 0 && r[StateIndex(r, subtaskId)] == SubtaskState(subtaskId, isCompleted)
    ensures StateIndex(states, subtaskId) >= 0 ==> |r| == |states| && StateIndex(r, subtaskId) == StateIndex(states, subtaskId)
    ensures StateIndex(states, subtaskId) < 0 ==> r == states + [SubtaskState(subtaskId, isCompleted)]
    ensures forall j :: 0 <= j < |states| && j != StateIndex(states, subtaskId) ==> r[j] == states[j]
  {
    var k := StateIndex(states, subtaskId);
    var newState := SubtaskState(subtaskId, isCompleted);
    var r := if k >= 0 then states[k := newState] else states + [newState];
    var p := (st: SubtaskState) => st.subtaskId == subtaskId;
    var k' := if k >= 0 then k else |states|;
    assert p(r[k']);
    assert forall j :: 0 <= j < k' ==> !p(r[j]) by {
      forall j | 0 <= j < k'
        ensures !p(r[j])
      {
        assert r[j] == states[j];
      }
    }
    r
  }

  /**
   * setSubtaskCompleted: in the override with that key (a new one is
   * appended when there is none), set or add the subtask's state; the
   * override's own isCompleted and note stay.
   */
  function AfterSetSubtaskCompleted(s: RoutineStore, taskId: string, day: int, subtaskId: string, isCompleted: bool): (r: RoutineStore)
    ensures OverrideIndex(s.overrides, taskId, day) >= 0 ==> |r.overrides| == |s.overrides|
    ensures OverrideIndex(s.overrides, taskId, day) < 0 ==>
      r.overrides == s.overrides + [OccurrenceOverride(taskId, day, false, "", [SubtaskState(subtaskId, isCompleted)])]
    ensures forall j :: 0 <= j < |s.overrides| && j != OverrideIndex(s.overrides, taskId, day) ==> r.overrides[j] == s.overrides[j]
    ensures r.lists == s.lists && r.tasks == s.tasks && r.activeListId == s.activeListId && r.settings == s.settings
  {
    var idx := OverrideIndex(s.overrides, taskId, day);
    if idx >= 0 then (
      var o := s.overrides[idx];
      s.(overrides := s.overrides[idx := o.(subtaskStates := SetSubtaskState(o.subtaskStates, subtaskId, isCompleted))])
    ) else (
      var base := OccurrenceOverride(taskId, day, false, "", []);
      FirstSubtaskState(subtaskId, isCompleted);
      s.(overrides := s.overrides + [base.(subtaskStates := SetSubtaskState(base.subtaskStates, subtaskId, isCompleted))])
    )
  }

  /** Setting a subtask in an override that has no states yet gives that one state. */
  lemma FirstSubtaskState(subtaskId: string, isCompleted: bool)
    ensures SetSubtaskState([], subtaskId, isCompleted) == [SubtaskState(subtaskId, isCompleted)]
  {
    assert [] + [SubtaskState(subtaskId, isCompleted)] == [SubtaskState(subtaskId, isCompleted)];
  }

  /**
   * Reading back after setSubtaskCompleted: the key names an override whose
   * state for the subtask is the new one, whose other subtask states, note
   * and isCompleted are those it had (false and blank for a new override);
   * every other key names what it named before.
   */
  lemma SetSubtaskCompletedReadBack(s: RoutineStore, taskId: string, day: int, subtaskId: string, isCompleted: bool,
                                    taskId': string, day': int)
    ensures var r := AfterSetSubtaskCompleted(s, taskId, day, subtaskId, isCompleted);
      var before := match OverrideFor(s.overrides, taskId, day)
        case Some(o) => o
        case None => OccurrenceOverride(taskId, day, false, "", []);
      OverrideFor(r.overrides, taskId, day) ==
        Some(before.(subtaskStates := SetSubtaskState(before.subtaskStates, subtaskId, isCompleted)))
    ensures (taskId', day') != (taskId, day) ==>
      OverrideFor(AfterSetSubtaskCompleted(s, taskId, day, subtaskId, isCompleted).overrides, taskId', day') ==
        OverrideFor(s.overrides, taskId', day')
  {
    var os := s.overrides;
    var r := AfterSetSubtaskCompleted(s, taskId, day, subtaskId, isCompleted);
    var i := OverrideIndex(os, taskId, day);
    var k := if i >= 0 then i else |os|;
    OverrideIndexAfterWrite(os, r.overrides, taskId, day, k);
    if (taskId', day') != (taskId, day) {
      OtherKeyAfterWrite(os, r.overrides, taskId, day, k, taskId', day');
    }
  }

  // ---------------------------------------------------------------------------
  // The repository

  /** The repository over the one stored document; each method is one `updateData`. */
  class Repository {
    var doc: RoutineStore

    constructor (initial: RoutineStore)
      ensures doc == initial
    {
      doc := initial;
    }

    method EnsureInitialized(freshId: string)
      modifies this
      ensures doc == AfterEnsureInitialized(old(doc), freshId)
    {
      doc := AfterEnsureInitialized(doc, freshId);
    }

    /** createList returns the id it generated; the color and makeActive default as in the source. */
    method CreateList(freshId: string, name: string, colorHex: string := DefaultColorHex, makeActive: bool := true)
      returns (id: string)
      modifies this
      ensures id == freshId
      ensures doc == AfterCreateList(old(doc), freshId, name, colorHex, makeActive)
    {
      id := freshId;
      doc := AfterCreateList(doc, id, name, colorHex, makeActive);
    }

    method RenameList(listId: string, name: string)
      modifies this
      ensures doc == AfterRenameList(old(doc), listId, name)
    {
      doc := AfterRenameList(doc, listId, name);
    }

    method SetActiveList(listId: string)
      modifies this
      ensures doc == AfterSetActiveList(old(doc), listId)
    {
      doc := AfterSetActiveList(doc, listId);
    }

    /** deleteList: two updates, the removal and then ensureInitialized. */
    method DeleteList(listId: string, freshId: string)
      modifies this
      ensures doc == AfterDeleteList(old(doc), listId, freshId)
    {
      doc := AfterRemoveList(doc, listId);
      EnsureInitialized(freshId);
    }

    method CreateOrUpdateTask(task: Task)
      modifies this
      ensures doc == AfterCreateOrUpdateTask(old(doc), task)
    {
      doc := AfterCreateOrUpdateTask(doc, task);
    }

    method DeleteTask(taskId: string)
      modifies this
      ensures doc == AfterDeleteTask(old(doc), taskId)
    {
      doc := AfterDeleteTask(doc, taskId);
    }

    method SetTaskCompleted(taskId: string, day: int, isCompleted: bool)
      modifies this
      ensures doc == AfterSetTaskCompleted(old(doc), taskId, day, isCompleted)
    {
      doc := AfterSetTaskCompleted(doc, taskId, day, isCompleted);
    }

    method SetSubtaskCompleted(taskId: string, day: int, subtaskId: string, isCompleted: bool)
      modifies this
      ensures doc == AfterSetSubtaskCompleted(old(doc), taskId, day, subtaskId, isCompleted)
    {
      doc := AfterSetSubtaskCompleted(doc, taskId, day, subtaskId, isCompleted);
    }

    /** updateSettings: only the settings change, to the transform of the old ones. */
    method UpdateSettings(transform: Settings -> Settings)
      modifies this
      ensures doc == old(doc).(settings := transform(old(doc).settings))
    {
      doc := doc.(settings := transform(doc.settings));
    }
  }
}
