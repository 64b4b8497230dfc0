/** The backend's task list (the tasks file): every planned task of every
    day, as records of the backend's `Task` schema plus the `date` key that
    the schema does not declare. The list is passed in and returned instead
    of being read from and written to the file; `uuid4()` is a supplied
    sequence of fresh ids and `date.today()` a parameter.
 */
module TaskStore {
  import opened Common
  import opened Seqs
  import TimeEntryCache

  /** The fields of the backend's `Task` schema. */
  datatype Task = Task(
    id: string,
    name: string,
    redmineIssueId: Option<int>,
    plannedHours: Tenths,
    isLogged: bool,
    lastLoggedDate: Option<Date>,
    timeEntryId: Option<int>,
    activityId: Option<int>,
    rdFunctionTeam: Option<string>,
    comments: Option<string>)

  /** A record of the tasks file: the schema fields and the day it belongs
      to. `date` is `None` when the record has no `date` key. Updating a
      record from a `Task` overwrites the schema fields only, so `date`
      survives every update. */
  datatype StoredTask = StoredTask(task: Task, date: Option<Date>)

  /** The result of `GET /api/tasks`: the returned list and the list as
      saved afterwards. */
  datatype Fetched = Fetched(tasks: seq<StoredTask>, store: seq<StoredTask>)

  /** The result of `DELETE /api/tasks/{id}`: the saved list and the Redmine
      time entry whose deletion is attempted, if any. */
  datatype Deletion = Deletion(store: seq<StoredTask>, remoteEntry: Option<int>)

  predicate NoTaskWithId(store: seq<StoredTask>, id: string) {
    forall i :: 0 <= i < |store| ==> store[i].task.id != id
  }

  function HasId(id: string): StoredTask -> bool {
    (t: StoredTask) => t.task.id == id
  }

  /** `k` is the position of the first record with the given id. */
  predicate FirstWithIdAt(store: seq<StoredTask>, id: string, k: int) {
    FirstAt(store, HasId(id), k)
  }

  function NotId(id: string): StoredTask -> bool {
    (t: StoredTask) => t.task.id != id
  }

  function OnDate(d: Date): StoredTask -> bool {
    (t: StoredTask) => t.date == Some(d)
  }

  function NotOnDate(d: Date): StoredTask -> bool {
    (t: StoredTask) => t.date != Some(d)
  }

  /** The position of the first record with the given id, as
      `next((t for t in all_tasks if t['id'] == id), None)` finds it. */
  function FindTask(store: seq<StoredTask>, id: string): (r: Option<nat>)
    ensures r.None? <==> NoTaskWithId(store, id)
    ensures r.Some? ==> FirstWithIdAt(store, id, r.value)
  {
    FirstIndex(store, HasId(id))
  }

  /** `POST /api/tasks`: an upsert by id. An existing record is updated from
      the schema fields and keeps its date; otherwise the task is appended.
      The appended record has no date, because the schema has no `date`
      field and the posted date is dropped when the body is parsed. */
  function CreateTask(store: seq<StoredTask>, task: Task): (r: seq<StoredTask>)
    ensures NoTaskWithId(store, task.id) ==> r == store + [StoredTask(task, None)]
    ensures !NoTaskWithId(store, task.id) ==>
      |r| == |store| &&
      exists k :: FirstWithIdAt(store, task.id, k) && r == store[k := StoredTask(task, store[k].date)]
  {
    match FindTask(store, task.id)
    case None => store + [StoredTask(task, None)]
    case Some(k) => store[k := StoredTask(task, store[k].date)]
  }

  /** The upsert as evidently intended: the record, new or existing, is
      stored under the day the client posted. */
  function CreateTaskOn(store: seq<StoredTask>, task: Task, date: Date): (r: seq<StoredTask>)
    ensures NoTaskWithId(store, task.id) ==> r == store + [StoredTask(task, Some(date))]
    ensures !NoTaskWithId(store, task.id) ==>
      |r| == |store| &&
      exists k :: FirstWithIdAt(store, task.id, k) && r == store[k := StoredTask(task, Some(date))]
  {
    match FindTask(store, task.id)
    case None => store + [StoredTask(task, Some(date))]
    case Some(k) => store[k := StoredTask(task, Some(date))]
  }

  /** `PUT /api/tasks/{task_id}`: the first record with the path's id takes
      the body's schema fields (its id included) and keeps its date; no
      other record changes. An unknown id is refused and nothing is saved. */
  function UpdateTask(store: seq<StoredTask>, taskId: string, task: Task): (r: Result<seq<StoredTask>>)
    ensures r.Err? <==> NoTaskWithId(store, taskId)
    ensures r.Err? ==> r.msg == "Task not found"
    ensures r.Ok? ==>
      |r.value| == |store| &&
      exists k :: FirstWithIdAt(store, taskId, k) && r.value == store[k := StoredTask(task, store[k].date)]
  {
    match FindTask(store, taskId)
    case None => Err("Task not found")
    case Some(k) => Ok(store[k := StoredTask(task, store[k].date)])
  }

  /** After an update that keeps the id, the record found under that id is
      the new task on the old record's day. */
  lemma UpdateThenFind(store: seq<StoredTask>, task: Task)
    requires !NoTaskWithId(store, task.id)
    ensures var r := UpdateTask(store, task.id, task);
      r.Ok? && exists k :: FirstWithIdAt(r.value, task.id, k) && r.value[k] == StoredTask(task, store[k].date)
  {
    var r := UpdateTask(store, task.id, task);
    var k :| FirstWithIdAt(store, task.id, k) && r.value == store[k := StoredTask(task, store[k].date)];
    assert FirstWithIdAt(r.value, task.id, k);
  }

  /** `DELETE /api/tasks/{task_id}?delete_from_redmine=`: every record with
      the id is removed and the others are kept in order. Deleting the
      Redmine time entry is attempted only when the flag is set, a client is
      configured, a record with the id exists and its `time_entry_id` is
      truthy; a failure there is ignored and the local deletion still
      happens. */
  function DeleteTask(store: seq<StoredTask>, taskId: string, deleteFromRedmine: bool, configured: bool): (r: Deletion)
    ensures NoTaskWithId(r.store, taskId)
    ensures forall t :: t in r.store <==> t in store && t.task.id != taskId
    ensures IsSubsequence(r.store, store)
    ensures |r.store| + Count(store, HasId(taskId)) == |store|
    ensures r.remoteEntry.Some? <==>
      deleteFromRedmine && configured &&
      exists k :: FirstWithIdAt(store, taskId, k) && IntTruthy(store[k].task.timeEntryId)
    ensures r.remoteEntry.Some? ==>
      exists k :: FirstWithIdAt(store, taskId, k) && store[k].task.timeEntryId == r.remoteEntry
  {
    var kept := Filter(store, NotId(taskId));
    FilterCount(store, NotId(taskId), HasId(taskId));
    FilterIsSubsequence(store, NotId(taskId));
    assert forall i :: 0 <= i < |kept| ==> kept[i] in kept;
    var remote :=
      match FindTask(store, taskId)
      case Some(k) =>
        if deleteFromRedmine && configured && IntTruthy(store[k].task.timeEntryId)
        then store[k].task.timeEntryId else None
      case None => None;
    assert remote.Some? ==> FindTask(store, taskId).Some?;
    assert forall k :: FirstWithIdAt(store, taskId, k) ==> FindTask(store, taskId) == Some(k) by {
      forall k | FirstWithIdAt(store, taskId, k) ensures FindTask(store, taskId) == Some(k) {
        FirstAtUnique(store, HasId(taskId), k, FindTask(store, taskId).value);
      }
    }
    Deletion(kept, remote)
  }

  /** The records of one day, in stored order and with every copy of a
      record: what is left out is exactly the records of other days. */
  function OnDay(store: seq<StoredTask>, d: Date): (r: seq<StoredTask>)
    ensures forall t :: t in r <==> t in store && t.date == Some(d)
    ensures IsSubsequence(r, store)
    ensures |r| + Count(store, NotOnDate(d)) == |store|
  {
    FilterCount(store, OnDate(d), NotOnDate(d));
    FilterIsSubsequence(store, OnDate(d));
    Filter(store, OnDate(d))
  }

  /** The record has a date strictly before `today`. */
  predicate DatedBefore(t: StoredTask, today: Date) {
    t.date.Some? && t.date.value < today
  }

  /** The most recent day before `today` that has records. The source sorts
      the records by date, newest first, and takes the first date earlier
      than today; that date is this maximum. */
  function MostRecentBefore(store: seq<StoredTask>, today: Date): (r: Option<Date>)
    ensures r.None? <==> forall i :: 0 <= i < |store| ==> !DatedBefore(store[i], today)
    ensures r.Some? ==> r.value < today && exists i :: 0 <= i < |store| && store[i].date == r
    ensures r.Some? ==> forall i :: 0 <= i < |store| && DatedBefore(store[i], today) ==> store[i].date.value <= r.value
  {
    if |store| == 0 then None
    else
      var rest := MostRecentBefore(store[1..], today);
      assert forall i :: 1 <= i < |store| ==> store[i] == store[1..][i - 1];
      if DatedBefore(store[0], today) && (rest.None? || rest.value < store[0].date.value)
      then store[0].date
      else rest
  }

  /** `copy` is `orig` carried forward to `today` under a fresh id: logged
      state cleared, every other field kept. */
  predicate IsCarriedForward(orig: StoredTask, copy: StoredTask, id: string, today: Date) {
    && copy.date == Some(today)
    && copy.task.id == id
    && !copy.task.isLogged
    && copy.task.lastLoggedDate.None?
    && copy.task.timeEntryId.None?
    && copy.task.name == orig.task.name
    && copy.task.redmineIssueId == orig.task.redmineIssueId
    && copy.task.plannedHours == orig.task.plannedHours
    && copy.task.activityId == orig.task.activityId
    && copy.task.rdFunctionTeam == orig.task.rdFunctionTeam
    && copy.task.comments == orig.task.comments
  }

  /** One copy per source record, each under the next fresh id. */
  function CopyAll(source: seq<StoredTask>, ids: seq<string>, today: Date): (r: seq<StoredTask>)
    requires |ids| >= |source|
    ensures |r| == |source|
    ensures forall i :: 0 <= i < |r| ==> IsCarriedForward(source[i], r[i], ids[i], today)
  {
    seq(|source|, i requires 0 <= i < |source| =>
      StoredTask(source[i].task.(id := ids[i], isLogged := false, lastLoggedDate := None, timeEntryId := None),
                 Some(today)))
  }

  /** The auto-copy step of `get_tasks`: the records of the most recent
      earlier day are copied to today and appended; with no earlier day,
      nothing is copied. */
  function AutoCopy(store: seq<StoredTask>, today: Date, ids: seq<string>): (r: Fetched)
    requires |ids| >= |store|
    ensures r.store == store + r.tasks
    ensures MostRecentBefore(store, today).None? <==> r.tasks == []
    ensures MostRecentBefore(store, today).Some? ==>
      var source := OnDay(store, MostRecentBefore(store, today).value);
      |r.tasks| == |source| &&
      forall i :: 0 <= i < |source| ==> IsCarriedForward(source[i], r.tasks[i], ids[i], today)
    ensures forall i :: 0 <= i < |r.tasks| ==> r.tasks[i].date == Some(today)
  {
    match MostRecentBefore(store, today)
    case None => Fetched([], store)
    case Some(m) =>
      var source := OnDay(store, m);
      var i :| 0 <= i < |store| && store[i].date == Some(m);
      assert store[i] in source;
      var copies := CopyAll(source, ids, today);
      Fetched(copies, store + copies)
  }

  /** `get_tasks` with an explicit switch for the auto-copy. A missing or
      empty `date_str` means today. The returned list is always exactly the
      requested day's records of the list as saved afterwards; the list only
      grows by appended copies, and only when the switch allows it, the
      requested day is today and that day has no records. With the switch
      set, nothing is ever written. */
  function GetTasksWith(store: seq<StoredTask>, dateStr: Option<Date>, noAutoCopy: bool,
                        today: Date, ids: seq<string>): (r: Fetched)
    requires |ids| >= |store|
    ensures r.tasks == OnDay(r.store, dateStr.GetOr(today))
    ensures |store| <= |r.store| && r.store[..|store|] == store
    ensures r.store != store ==>
      !noAutoCopy && dateStr.GetOr(today) == today && OnDay(store, today) == []
    ensures !noAutoCopy && dateStr.GetOr(today) == today && OnDay(store, today) == [] ==>
      r.store == AutoCopy(store, today, ids).store
    ensures noAutoCopy ==> r == Fetched(OnDay(store, dateStr.GetOr(today)), store)
  {
    var d := dateStr.GetOr(today);
    var todays := OnDay(store, d);
    if !noAutoCopy && d == today && todays == [] then
      var c := AutoCopy(store, today, ids);
      FilterConcat(store, c.tasks, OnDate(today));
      FilterKeepsAll(c.tasks, OnDate(today));
      assert c.store[..|store|] == store;
      c
    else
      Fetched(todays, store)
  }

  /** `GET /api/tasks?date_str=` as written: there is no way to switch the
      auto-copy off, so a request for today's empty list always copies the
      most recent earlier day forward. */
  function GetTasks(store: seq<StoredTask>, dateStr: Option<Date>, today: Date, ids: seq<string>): (r: Fetched)
    requires |ids| >= |store|
    ensures r.tasks == OnDay(r.store, dateStr.GetOr(today))
    ensures |store| <= |r.store| && r.store[..|store|] == store
    ensures r.store != store ==> dateStr.GetOr(today) == today && OnDay(store, today) == []
    ensures dateStr.GetOr(today) == today && OnDay(store, today) == [] ==>
      r.store == AutoCopy(store, today, ids).store
    ensures (dateStr.GetOr(today) == today && OnDay(store, today) == [] &&
             MostRecentBefore(store, today).Some?) ==> |r.store| > |store|
  {
    GetTasksWith(store, dateStr, false, today, ids)
  }

  /** Fetching again returns the same list and writes nothing: a copied day
      is not copied twice. */
  lemma GetTasksStable(store: seq<StoredTask>, dateStr: Option<Date>, today: Date,
                       ids: seq<string>, ids': seq<string>)
    requires |ids| >= |store|
    requires |ids'| >= |GetTasks(store, dateStr, today, ids).store|
    ensures var r := GetTasks(store, dateStr, today, ids);
      GetTasks(r.store, dateStr, today, ids') == r
  {
    var r := GetTasks(store, dateStr, today, ids);
    var d := dateStr.GetOr(today);
    var r' := GetTasks(r.store, dateStr, today, ids');
    if r.tasks == [] && d == today {
      if OnDay(store, today) == [] {
        assert r.store == AutoCopy(store, today, ids).store;
        assert r.store == store;
      }
      assert r.store == store;
    }
  }

  /** A task posted for creation is never listed afterwards, whatever day
      is asked for: its record has no date, so no day's filter keeps it and
      no auto-copy copies it. */
  lemma CreatedTaskNeverListed(store: seq<StoredTask>, task: Task, dateStr: Option<Date>,
                               today: Date, ids: seq<string>)
    requires NoTaskWithId(store, task.id)
    requires forall i :: 0 <= i < |ids| ==> ids[i] != task.id
    requires |ids| > |store|
    ensures forall t :: t in GetTasks(CreateTask(store, task), dateStr, today, ids).tasks ==>
      t.task.id != task.id
  {
    var s1 := CreateTask(store, task);
    assert s1 == store + [StoredTask(task, None)];
    var r := GetTasks(s1, dateStr, today, ids);
    forall t | t in r.tasks ensures t.task.id != task.id {
      assert t in r.store && t.date.Some?;
      if r.store == s1 {
        assert t in store;
      } else {
        var c := AutoCopy(s1, today, ids);
        assert r.store == s1 + c.tasks;
        if t !in s1 {
          var i :| 0 <= i < |c.tasks| && c.tasks[i] == t;
          assert IsCarriedForward(OnDay(s1, MostRecentBefore(s1, today).value)[i], t, ids[i], today);
        }
      }
    }
  }

  /** With the date kept, a created task is listed on its day. */
  lemma CreatedOnDayIsListed(store: seq<StoredTask>, task: Task, d: Date, today: Date, ids: seq<string>)
    requires |ids| > |store|
    ensures StoredTask(task, Some(d)) in GetTasks(CreateTaskOn(store, task, d), Some(d), today, ids).tasks
  {
    var s1 := CreateTaskOn(store, task, d);
    var r := GetTasks(s1, Some(d), today, ids);
    var rec := StoredTask(task, Some(d));
    if NoTaskWithId(store, task.id) {
      assert s1[|store|] == rec;
    } else {
      var k :| FirstWithIdAt(store, task.id, k) && s1 == store[k := rec];
      assert s1[k] == rec;
    }
    assert rec in s1;
    assert r.store[..|s1|] == s1;
    assert rec in r.store;
  }

  /** Deleting the last task of the page's day and fetching that day again,
      as the planner does after a delete, refills the list when the page's
      day is the backend's today and an earlier day remains: the list
      returned is exactly the auto-copy of the most recent earlier day's
      records, and it is what is appended to the saved list. When the page's
      UTC day is not the backend's local today, the same fetch copies
      nothing and returns an empty list. */
  lemma DeleteThenRefetchRefills(store: seq<StoredTask>, id: string, deleteFromRedmine: bool,
                                 configured: bool, pageDay: Date, today: Date, ids: seq<string>, i: nat)
    requires forall j :: 0 <= j < |store| && store[j].date == Some(pageDay) ==> store[j].task.id == id
    requires i < |store| && DatedBefore(store[i], today) && store[i].task.id != id
    requires |ids| >= |store|
    ensures var after := DeleteTask(store, id, deleteFromRedmine, configured).store;
      |ids| >= |after| &&
      var r := GetTasks(after, Some(pageDay), today, ids);
      var c := AutoCopy(after, today, ids);
      && (pageDay == today ==>
            && MostRecentBefore(after, today).Some?
            && r.tasks == c.tasks && r.store == after + c.tasks
            && r.tasks != [] && |r.store| > |after|)
      && (pageDay != today ==> r.tasks == [] && r.store == after)
  {
    var after := DeleteTask(store, id, deleteFromRedmine, configured).store;
    FilterIsSubsequence(store, NotId(id));
    assert |after| <= |store|;
    forall j | 0 <= j < |after| ensures !OnDate(pageDay)(after[j]) {
      assert after[j] in store;
    }
    FilterKeepsNone(after, OnDate(pageDay));
    var r := GetTasks(after, Some(pageDay), today, ids);
    if pageDay == today {
      assert store[i] in after;
      var k :| 0 <= k < |after| && after[k] == store[i];
      assert DatedBefore(after[k], today);
      assert MostRecentBefore(after, today).Some?;
      var c := AutoCopy(after, today, ids);
      assert r.store == c.store;
      assert c.tasks != [];
      assert OnDay(after, today) == [];
      assert r.store == after + c.tasks;
      FilterConcat(after, c.tasks, OnDate(today));
      FilterKeepsAll(c.tasks, OnDate(today));
    }
  }

  /** The time-entry cache after `DELETE /api/tasks/{task_id}`. As written
      (`uncache` false) the endpoint never touches the cache. As evidently
      intended (`uncache` true), a Redmine entry that was deleted
      (`remoteDeleted`: the attempt did not fail) is also dropped from the
      cache, as `remove_from_cache` would do; nothing else changes. */
  function CacheAfterDelete(cache: TimeEntryCache.Cache, d: Deletion, remoteDeleted: bool, uncache: bool)
    : (r: TimeEntryCache.Cache)
    ensures !(uncache && remoteDeleted && d.remoteEntry.Some?) ==> r == cache
    ensures r.timeEntries.None? <==> cache.timeEntries.None?
    ensures uncache && remoteDeleted && d.remoteEntry.Some? && cache.timeEntries.Some? ==>
      && (forall e :: e in r.timeEntries.value <==> e in cache.timeEntries.value && e.id != d.remoteEntry.value)
      && IsSubsequence(r.timeEntries.value, cache.timeEntries.value)
      && |r.timeEntries.value| + Count(cache.timeEntries.value, TimeEntryCache.IsEntry(d.remoteEntry.value))
           == |cache.timeEntries.value|
  {
    if uncache && remoteDeleted && d.remoteEntry.Some?
    then TimeEntryCache.RemoveFromCache(cache, d.remoteEntry.value)
    else cache
  }

  /** As written, an entry deleted from Redmine along with its task is
      still answered from the cache, so the calendar keeps showing it. */
  lemma DeletedEntryStillListed(store: seq<StoredTask>, taskId: string, cache: TimeEntryCache.Cache,
                                e: TimeEntryCache.CachedEntry)
    requires cache.timeEntries.Some? && e in cache.timeEntries.value
    requires DeleteTask(store, taskId, true, true).remoteEntry == Some(e.id)
    ensures var after := CacheAfterDelete(cache, DeleteTask(store, taskId, true, true), true, false);
      e in TimeEntryCache.CachedTimeEntries(after, Some(e.spentOn), Some(e.spentOn)).value
  {
  }

  /** With the corrected delete, no entry with the deleted id is answered
      from the cache for any range, and every other cached entry still is. */
  lemma DeletedEntryUnlisted(store: seq<StoredTask>, taskId: string, cache: TimeEntryCache.Cache,
                             fromDate: Option<Date>, toDate: Option<Date>)
    requires cache.timeEntries.Some?
    requires DeleteTask(store, taskId, true, true).remoteEntry.Some?
    ensures var d := DeleteTask(store, taskId, true, true);
      var listed := TimeEntryCache.CachedTimeEntries(CacheAfterDelete(cache, d, true, true), fromDate, toDate);
      && listed.Some?
      && (forall x :: x in listed.value ==> x.id != d.remoteEntry.value)
      && (forall x :: x in TimeEntryCache.CachedTimeEntries(cache, fromDate, toDate).value && x.id != d.remoteEntry.value ==>
            x in listed.value)
  {
  }
}
