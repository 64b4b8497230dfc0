/** `POST /api/planner/log_batch`: submits each eligible task of a batch as
    a Redmine time entry, records each success on the stored task and
    refreshes the new entry in the time-entry cache. The Redmine gateway is a
    sequence of outcomes, one per batch position, and only the positions that
    are actually submitted consult theirs.
 */
module BatchLog {
  import opened Common
  import opened Seqs
  import opened TaskStore
  import TimeEntryCache

  /** What the gateway answers to one time-entry creation. A created entry
      comes with what `update_cache_with_entry` reads back for it: the entry,
      or `None` when that read fails (the failure is swallowed there). */
  datatype Outcome =
    | Created(entryId: int, read: Option<TimeEntryCache.CachedEntry>)
    | Rejected(reason: string)

  /** The activity used when a task has none (Development). */
  const DefaultActivity: int := 9

  /** The Redmine custom field that carries the R&D function team. */
  const RdFunctionTeamField: int := 93

  datatype CustomField = CustomField(id: int, value: string)

  /** The keyword arguments of one `time_entry.create` call. */
  datatype EntryRequest = EntryRequest(
    issueId: Option<int>,
    hours: Tenths,
    activityId: int,
    comments: string,
    spentOn: Date,
    customFields: seq<CustomField>)

  /** The loop's running state: the task list being updated, the success
      count, the error messages, the requests sent so far and the time-entry
      cache. */
  datatype Tally = Tally(store: seq<StoredTask>, logged: nat, errors: seq<string>, sent: seq<EntryRequest>,
                         cache: TimeEntryCache.Cache)

  /** The endpoint's reply. */
  datatype Response = NotConfigured | Completed(logged: nat, errors: seq<string>)

  /** A batch task is submitted unless it was already logged today (by the
      batch's own copy of `last_logged_date`) or has no planned hours. */
  predicate Eligible(t: Task, today: Date) {
    t.lastLoggedDate != Some(today) && t.plannedHours > 0
  }

  function EligibleOn(today: Date): Task -> bool {
    (t: Task) => Eligible(t, today)
  }

  /** The request for one task: activity, comments and team fall back to 9,
      the task's name and "N/A" when the task's own value is falsy. */
  function EntryFor(t: Task, today: Date): (e: EntryRequest)
    ensures e.issueId == t.redmineIssueId && e.hours == t.plannedHours && e.spentOn == today
    ensures IntTruthy(t.activityId) ==> e.activityId == t.activityId.value
    ensures !IntTruthy(t.activityId) ==> e.activityId == DefaultActivity
    ensures e.activityId != 0
    ensures StrTruthy(t.comments) ==> e.comments == t.comments.value
    ensures !StrTruthy(t.comments) ==> e.comments == t.name
    ensures |e.customFields| == 1 && e.customFields[0].id == RdFunctionTeamField
    ensures StrTruthy(t.rdFunctionTeam) ==> e.customFields[0].value == t.rdFunctionTeam.value
    ensures !StrTruthy(t.rdFunctionTeam) ==> e.customFields[0].value == "N/A"
  {
    EntryRequest(t.redmineIssueId, t.plannedHours, IntOr(t.activityId, DefaultActivity),
                 StrOr(t.comments, t.name), today,
                 [CustomField(RdFunctionTeamField, StrOr(t.rdFunctionTeam, "N/A"))])
  }

  /** The message reported for a rejected task. */
  function ErrorMessage(t: Task, reason: string): string {
    "Task '" + t.name + "': " + reason
  }

  /** `after` is `before` with at most its two logging fields changed: the
      day, the id, the plan and the logged flag are all kept. */
  predicate KeepsPlan(before: StoredTask, after: StoredTask) {
    && after.date == before.date
    && after.task.id == before.task.id
    && after.task.name == before.task.name
    && after.task.redmineIssueId == before.task.redmineIssueId
    && after.task.plannedHours == before.task.plannedHours
    && after.task.isLogged == before.task.isLogged
    && after.task.activityId == before.task.activityId
    && after.task.rdFunctionTeam == before.task.rdFunctionTeam
    && after.task.comments == before.task.comments
  }

  /** Recording one success: the first record with the task's id gets
      today's date as `last_logged_date` and the new entry's id as
      `time_entry_id`; `is_logged` is left alone. With no such record,
      nothing changes. */
  function MarkLogged(store: seq<StoredTask>, id: string, today: Date, entryId: int): (r: seq<StoredTask>)
    ensures |r| == |store|
    ensures forall k :: 0 <= k < |store| ==> KeepsPlan(store[k], r[k])
    ensures forall k :: 0 <= k < |store| && !FirstWithIdAt(store, id, k) ==> r[k] == store[k]
    ensures forall k :: FirstWithIdAt(store, id, k) ==>
      r[k].task.lastLoggedDate == Some(today) && r[k].task.timeEntryId == Some(entryId)
  {
    match FindTask(store, id)
    case None => store
    case Some(k) =>
      assert forall k' :: FirstWithIdAt(store, id, k') ==> k' == k by {
        forall k' | FirstWithIdAt(store, id, k') ensures k' == k {
          FirstAtUnique(store, HasId(id), k, k');
        }
      }
      store[k := StoredTask(store[k].task.(lastLoggedDate := Some(today), timeEntryId := Some(entryId)),
                            store[k].date)]
  }

  /** One turn of the loop. */
  function Step(acc: Tally, t: Task, o: Outcome, today: Date): Tally {
    if !Eligible(t, today) then acc
    else
      var sent := acc.sent + [EntryFor(t, today)];
      match o
      case Created(entryId, read) =>
        Tally(MarkLogged(acc.store, t.id, today, entryId), acc.logged + 1, acc.errors, sent,
              TimeEntryCache.UpdateCacheWithEntry(acc.cache, entryId, true, read))
      case Rejected(reason) => Tally(acc.store, acc.logged, acc.errors + [ErrorMessage(t, reason)], sent, acc.cache)
  }

  /** The reference definition of the loop: the remaining batch processed
      from the given state. */
  function RunFrom(acc: Tally, batch: seq<Task>, outcomes: seq<Outcome>, today: Date): Tally
    requires |outcomes| == |batch|
    decreases |batch|
  {
    if |batch| == 0 then acc
    else RunFrom(Step(acc, batch[0], outcomes[0], today), batch[1..], outcomes[1..], today)
  }

  /** The number of submitted tasks whose creation succeeded. */
  function Successes(batch: seq<Task>, outcomes: seq<Outcome>, today: Date): nat
    requires |outcomes| == |batch|
    decreases |batch|
  {
    if |batch| == 0 then 0
    else (if Eligible(batch[0], today) && outcomes[0].Created? then 1 else 0)
         + Successes(batch[1..], outcomes[1..], today)
  }

  /** Some submitted task's creation was rejected. */
  predicate SomeRejected(batch: seq<Task>, outcomes: seq<Outcome>, today: Date)
    requires |outcomes| == |batch|
  {
    exists i :: 0 <= i < |batch| && Eligible(batch[i], today) && outcomes[i].Rejected?
  }

  /** A batch task with id `id` was submitted and its creation succeeded. */
  predicate SucceededWithId(batch: seq<Task>, outcomes: seq<Outcome>, today: Date, id: string)
    requires |outcomes| == |batch|
  {
    exists i :: 0 <= i < |batch| && batch[i].id == id && Eligible(batch[i], today) && outcomes[i].Created?
  }

  /** `status` of the reply; the not-configured reply carries no status,
      and a completed run is a partial success exactly when it has errors. */
  function Status(r: Response): (s: Option<string>)
    ensures s.None? <==> r.NotConfigured?
    ensures s == Some("partial_success") <==> r.Completed? && r.errors != []
    ensures s == Some("success") <==> r.Completed? && r.errors == []
  {
    match r
    case NotConfigured => None
    case Completed(_, errors) => if |errors| > 0 then Some("partial_success") else Some("success")
  }

  /** `error` of the reply: only the not-configured reply carries one. */
  function ErrorField(r: Response): (e: Option<string>)
    ensures e.Some? <==> r.NotConfigured?
    ensures e.Some? ==> e.value == "Redmine not configured"
  {
    match r
    case NotConfigured => Some("Redmine not configured")
    case Completed(_, _) => None
  }

  /** The counts: every submitted task is either a success or an error, and
      the successes are counted exactly. */
  lemma {:induction false} RunCounts(acc: Tally, batch: seq<Task>, outcomes: seq<Outcome>, today: Date)
    requires |outcomes| == |batch|
    ensures var r := RunFrom(acc, batch, outcomes, today);
      && r.logged == acc.logged + Successes(batch, outcomes, today)
      && |r.sent| == |acc.sent| + Count(batch, EligibleOn(today))
      && r.logged + |r.errors| == acc.logged + |acc.errors| + Count(batch, EligibleOn(today))
    decreases |batch|
  {
    if |batch| > 0 {
      RunCounts(Step(acc, batch[0], outcomes[0], today), batch[1..], outcomes[1..], today);
    }
  }

  /** Errors are added exactly when some submitted task was rejected. */
  lemma {:induction false} RunErrors(acc: Tally, batch: seq<Task>, outcomes: seq<Outcome>, today: Date)
    requires |outcomes| == |batch|
    ensures var r := RunFrom(acc, batch, outcomes, today);
      |r.errors| >= |acc.errors| && (|r.errors| > |acc.errors| <==> SomeRejected(batch, outcomes, today))
    decreases |batch|
  {
    if |batch| > 0 {
      var acc' := Step(acc, batch[0], outcomes[0], today);
      RunErrors(acc', batch[1..], outcomes[1..], today);
      if SomeRejected(batch[1..], outcomes[1..], today) {
        var i :| 0 <= i < |batch[1..]| && Eligible(batch[1..][i], today) && outcomes[1..][i].Rejected?;
        assert Eligible(batch[i + 1], today) && outcomes[i + 1].Rejected?;
      }
      if SomeRejected(batch, outcomes, today) && !(Eligible(batch[0], today) && outcomes[0].Rejected?) {
        var i :| 0 <= i < |batch| && Eligible(batch[i], today) && outcomes[i].Rejected?;
        assert i > 0;
        assert Eligible(batch[1..][i - 1], today) && outcomes[1..][i - 1].Rejected?;
      }
    }
  }

  /** A batch with nothing eligible changes nothing: no request is sent,
      nothing is counted, the saved list is the loaded one and the cache is
      untouched. */
  lemma {:induction false} RunNothingEligible(acc: Tally, batch: seq<Task>, outcomes: seq<Outcome>, today: Date)
    requires |outcomes| == |batch|
    requires forall i :: 0 <= i < |batch| ==> !Eligible(batch[i], today)
    ensures RunFrom(acc, batch, outcomes, today) == acc
    decreases |batch|
  {
    if |batch| > 0 {
      assert forall i :: 0 <= i < |batch[1..]| ==> batch[1..][i] == batch[i + 1];
      RunNothingEligible(acc, batch[1..], outcomes[1..], today);
    }
  }

  /** The batch only ever touches the two logging fields: in particular it
      never sets `is_logged`, and ids and days are kept. */
  lemma {:induction false} RunKeepsPlan(acc: Tally, batch: seq<Task>, outcomes: seq<Outcome>, today: Date)
    requires |outcomes| == |batch|
    ensures var r := RunFrom(acc, batch, outcomes, today);
      |r.store| == |acc.store| && forall k :: 0 <= k < |acc.store| ==> KeepsPlan(acc.store[k], r.store[k])
    decreases |batch|
  {
    if |batch| > 0 {
      var acc' := Step(acc, batch[0], outcomes[0], today);
      RunKeepsPlan(acc', batch[1..], outcomes[1..], today);
    }
  }

  /** A record whose id no successful task carries is left exactly as it was. */
  lemma {:induction false} RunLeavesOthers(acc: Tally, batch: seq<Task>, outcomes: seq<Outcome>, today: Date, k: nat)
    requires |outcomes| == |batch|
    requires k < |acc.store|
    requires !SucceededWithId(batch, outcomes, today, acc.store[k].task.id)
    ensures var r := RunFrom(acc, batch, outcomes, today);
      |r.store| == |acc.store| && r.store[k] == acc.store[k]
    decreases |batch|
  {
    if |batch| > 0 {
      var acc' := Step(acc, batch[0], outcomes[0], today);
      RunKeepsPlan(acc', batch[1..], outcomes[1..], today);
      assert !SucceededWithId(batch[1..], outcomes[1..], today, acc.store[k].task.id) by {
        forall i | 0 <= i < |batch[1..]|
          ensures !(batch[1..][i].id == acc.store[k].task.id && Eligible(batch[1..][i], today)
                    && outcomes[1..][i].Created?)
        {
          assert batch[i + 1] == batch[1..][i] && outcomes[i + 1] == outcomes[1..][i];
        }
      }
      if Eligible(batch[0], today) && outcomes[0].Created? {
        assert batch[0].id != acc.store[k].task.id;
        assert !FirstWithIdAt(acc.store, batch[0].id, k);
      }
      assert acc'.store[k] == acc.store[k];
      RunLeavesOthers(acc', batch[1..], outcomes[1..], today, k);
    }
  }

  /** The first record with an id that a successful task carries ends up
      logged today, with the entry id of the last such success. */
  lemma {:induction false} RunLastSuccessWins(acc: Tally, batch: seq<Task>, outcomes: seq<Outcome>,
                                              today: Date, i: nat, k: nat)
    requires |outcomes| == |batch|
    requires i < |batch| && Eligible(batch[i], today) && outcomes[i].Created?
    requires !SucceededWithId(batch[i + 1..], outcomes[i + 1..], today, batch[i].id)
    requires FirstWithIdAt(acc.store, batch[i].id, k)
    ensures var r := RunFrom(acc, batch, outcomes, today);
      k < |r.store| &&
      r.store[k].task.lastLoggedDate == Some(today) &&
      r.store[k].task.timeEntryId == Some(outcomes[i].entryId)
    decreases |batch|
  {
    var acc' := Step(acc, batch[0], outcomes[0], today);
    RunKeepsPlan(acc, [batch[0]], [outcomes[0]], today);
    assert RunFrom(acc, [batch[0]], [outcomes[0]], today) == RunFrom(acc', [], [], today);
    assert FirstWithIdAt(acc'.store, batch[i].id, k) by {
      forall j | 0 <= j <= k ensures acc'.store[j].task.id == acc.store[j].task.id {
        assert KeepsPlan(acc.store[j], acc'.store[j]);
      }
    }
    if i == 0 {
      assert batch[1..] == batch[i + 1..] && outcomes[1..] == outcomes[i + 1..];
      RunLeavesOthers(acc', batch[1..], outcomes[1..], today, k);
    } else {
      assert batch[1..][i - 1] == batch[i] && outcomes[1..][i - 1] == outcomes[i];
      assert batch[1..][i - 1 + 1..] == batch[i + 1..] && outcomes[1..][i - 1 + 1..] == outcomes[i + 1..];
      RunLastSuccessWins(acc', batch[1..], outcomes[1..], today, i - 1, k);
    }
  }

  /** The entries a cache holds; none when it has no entries key. */
  function CachedOf(c: TimeEntryCache.Cache): seq<TimeEntryCache.CachedEntry> {
    c.timeEntries.GetOr([])
  }

  /** Some submitted task's creation succeeded and its entry was read back
      as `e`. */
  predicate ReadBack(batch: seq<Task>, outcomes: seq<Outcome>, today: Date, e: TimeEntryCache.CachedEntry)
    requires |outcomes| == |batch|
  {
    exists i :: 0 <= i < |batch| && Eligible(batch[i], today) && outcomes[i].Created? && outcomes[i].read == Some(e)
  }

  /** Every entry in the cache after the run was there before or was read
      back for one of the batch's new entries: the run adds nothing else. */
  lemma {:induction false} RunCacheSources(acc: Tally, batch: seq<Task>, outcomes: seq<Outcome>, today: Date)
    requires |outcomes| == |batch|
    ensures var r := RunFrom(acc, batch, outcomes, today);
      forall e :: e in CachedOf(r.cache) ==> e in CachedOf(acc.cache) || ReadBack(batch, outcomes, today, e)
    decreases |batch|
  {
    if |batch| > 0 {
      var acc' := Step(acc, batch[0], outcomes[0], today);
      RunCacheSources(acc', batch[1..], outcomes[1..], today);
      var r := RunFrom(acc, batch, outcomes, today);
      forall e | e in CachedOf(r.cache)
        ensures e in CachedOf(acc.cache) || ReadBack(batch, outcomes, today, e)
      {
        if ReadBack(batch[1..], outcomes[1..], today, e) {
          var i :| 0 <= i < |batch[1..]| && Eligible(batch[1..][i], today)
                   && outcomes[1..][i].Created? && outcomes[1..][i].read == Some(e);
          assert batch[i + 1] == batch[1..][i] && outcomes[i + 1] == outcomes[1..][i];
        } else if e !in CachedOf(acc.cache) {
          assert e in CachedOf(acc'.cache);
          var o := outcomes[0];
          assert Eligible(batch[0], today) && o.Created? && o.read.Some?;
          var es := CachedOf(acc'.cache);
          assert es == es[..|es| - 1] + [es[|es| - 1]];
          assert e == o.read.value;
        }
      }
    }
  }

  /** When no new entry could be read back, the cache is left as it was. */
  lemma {:induction false} RunCacheUntouched(acc: Tally, batch: seq<Task>, outcomes: seq<Outcome>, today: Date)
    requires |outcomes| == |batch|
    requires forall i :: 0 <= i < |batch| && Eligible(batch[i], today) && outcomes[i].Created? ==>
      outcomes[i].read.None?
    ensures RunFrom(acc, batch, outcomes, today).cache == acc.cache
    decreases |batch|
  {
    if |batch| > 0 {
      assert forall i :: 0 <= i < |batch[1..]| ==> batch[1..][i] == batch[i + 1] && outcomes[1..][i] == outcomes[i + 1];
      RunCacheUntouched(Step(acc, batch[0], outcomes[0], today), batch[1..], outcomes[1..], today);
    }
  }

  /** When the batch's last task is submitted, created and read back, its
      entry ends the cache. */
  lemma {:induction false} RunCacheEndsWithLast(acc: Tally, batch: seq<Task>, outcomes: seq<Outcome>, today: Date,
                                                e: TimeEntryCache.CachedEntry)
    requires |outcomes| == |batch| > 0
    requires Eligible(batch[|batch| - 1], today) && outcomes[|batch| - 1].Created?
    requires outcomes[|batch| - 1].read == Some(e)
    ensures var r := RunFrom(acc, batch, outcomes, today);
      |CachedOf(r.cache)| > 0 && CachedOf(r.cache)[|CachedOf(r.cache)| - 1] == e
    decreases |batch|
  {
    var acc' := Step(acc, batch[0], outcomes[0], today);
    if |batch| == 1 {
      assert RunFrom(acc, batch, outcomes, today) == RunFrom(acc', [], [], today);
    } else {
      assert batch[1..][|batch| - 2] == batch[|batch| - 1] && outcomes[1..][|batch| - 2] == outcomes[|batch| - 1];
      RunCacheEndsWithLast(acc', batch[1..], outcomes[1..], today, e);
    }
  }

  /** The endpoint. Without a Redmine client it refuses and writes nothing.
      Otherwise it walks the batch in order, submitting each eligible task
      and recording each success on the first stored task with that id, and
      replies with the number of successes and the list of failures; the
      status is "partial_success" exactly when some submitted task was
      rejected. */
  method LogBatch(configured: bool, store: seq<StoredTask>, cache: TimeEntryCache.Cache, batch: seq<Task>,
                  outcomes: seq<Outcome>, today: Date)
    returns (saved: seq<StoredTask>, cached: TimeEntryCache.Cache, response: Response, sent: seq<EntryRequest>)
    requires |outcomes| == |batch|
    ensures !configured ==> saved == store && cached == cache && response == NotConfigured && sent == []
    ensures configured ==>
      var run := RunFrom(Tally(store, 0, [], [], cache), batch, outcomes, today);
      && saved == run.store && cached == run.cache
      && response == Completed(run.logged, run.errors) && sent == run.sent
    ensures configured ==> response.logged == Successes(batch, outcomes, today)
    ensures configured ==> response.logged + |response.errors| == |sent| <= |batch|
    ensures configured ==> (Status(response) == Some("partial_success") <==> SomeRejected(batch, outcomes, today))
    ensures |saved| == |store| && forall k :: 0 <= k < |store| ==> KeepsPlan(store[k], saved[k])
  {
    if !configured {
      return store, cache, NotConfigured, [];
    }
    var all := store;
    cached := cache;
    var logged: nat := 0;
    var errors: seq<string> := [];
    sent := [];
    ghost var init := Tally(store, 0, [], [], cache);
    var i := 0;
    while i < |batch|
      invariant 0 <= i <= |batch|
      invariant RunFrom(Tally(all, logged, errors, sent, cached), batch[i..], outcomes[i..], today)
             == RunFrom(init, batch, outcomes, today)
    {
      var task := batch[i];
      assert batch[i..][0] == task && batch[i..][1..] == batch[i + 1..];
      assert outcomes[i..][0] == outcomes[i] && outcomes[i..][1..] == outcomes[i + 1..];
      if task.lastLoggedDate == Some(today) || task.plannedHours <= 0 {
        i := i + 1;
        continue;
      }
      sent := sent + [EntryFor(task, today)];
      match outcomes[i] {
        case Created(entryId, read) =>
          var j := 0;
          while j < |all| && all[j].task.id != task.id
            invariant 0 <= j <= |all|
            invariant forall j' :: 0 <= j' < j ==> all[j'].task.id != task.id
          {
            j := j + 1;
          }
          if j < |all| {
            FirstAtUnique(all, HasId(task.id), j, FindTask(all, task.id).value);
            all := all[j := StoredTask(all[j].task.(lastLoggedDate := Some(today), timeEntryId := Some(entryId)),
                                       all[j].date)];
          }
          logged := logged + 1;
          cached := TimeEntryCache.UpdateCacheWithEntry(cached, entryId, true, read);
        case Rejected(reason) =>
          errors := errors + [ErrorMessage(task, reason)];
      }
      i := i + 1;
    }
    assert batch[i..] == [] && outcomes[i..] == [];
    RunCounts(init, batch, outcomes, today);
    RunErrors(init, batch, outcomes, today);
    RunKeepsPlan(init, batch, outcomes, today);
    return all, cached, Completed(logged, errors), sent;
  }

  /** Every logged record has a time entry. */
  predicate LoggedHaveEntries(store: seq<StoredTask>) {
    forall k :: 0 <= k < |store| && store[k].task.isLogged ==> store[k].task.timeEntryId.Some?
  }

  /** Recording a success as evidently intended: the record is also marked
      logged, so it keeps the invariant that a logged task has a time
      entry. */
  function MarkLoggedFixed(store: seq<StoredTask>, id: string, today: Date, entryId: int): (r: seq<StoredTask>)
    requires LoggedHaveEntries(store)
    ensures LoggedHaveEntries(r)
    ensures |r| == |store|
    ensures forall k :: 0 <= k < |store| && !FirstWithIdAt(store, id, k) ==> r[k] == store[k]
    ensures forall k :: FirstWithIdAt(store, id, k) ==>
      && r[k].date == store[k].date
      && r[k].task.isLogged
      && r[k].task.lastLoggedDate == Some(today)
      && r[k].task.timeEntryId == Some(entryId)
      && r[k].task == store[k].task.(isLogged := true, lastLoggedDate := Some(today), timeEntryId := Some(entryId))
  {
    match FindTask(store, id)
    case None => store
    case Some(k) =>
      assert forall k' :: FirstWithIdAt(store, id, k') ==> k' == k by {
        forall k' | FirstWithIdAt(store, id, k') ensures k' == k {
          FirstAtUnique(store, HasId(id), k, k');
        }
      }
      store[k := StoredTask(store[k].task.(isLogged := true, lastLoggedDate := Some(today), timeEntryId := Some(entryId)),
                            store[k].date)]
  }
}
