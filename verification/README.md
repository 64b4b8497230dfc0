# Redmine Tracker daily planner — a Dafny model

Redmine Tracker is a desktop time tracker for Redmine with a Python backend
and a React front end. This project models the planner's bookkeeping:

- the backend's profile list and task list (`backend/main.py`);
- the "copy the last planned day into an empty today" rule;
- the batch logging of planned tasks as Redmine time entries;
- the time-entry cache;
- the wrapper's time-entry payload and activity table;
- the planner page's add, select-profile, update, delete and log actions;
- the settings page's profile form;
- the calendar's lunch-break arithmetic.

Stores are sequences of immutable records, passed in and returned; nothing
is read from or written to files. The following are parameters:

- Redmine's answers: one outcome per batch position, an optional issue
  lookup, an optional fetched entry;
- the backend's today and the page's UTC day, as two dates;
- fresh ids: a sequence of distinct strings for `uuid4()`, a string for the
  planner's millisecond id;
- the user's confirm answers.

Dates are day numbers. ISO `YYYY-MM-DD` strings compare in the same order.
Hours are integer tenths of an hour in the stores and the planner. The
calendar works in integer minutes.

Modules, one file each:

| file | module | models |
|---|---|---|
| common.dfy | `Common` | `Option`, `Result`, dates, and the `if x:` and `x or d` tests of Python and JavaScript |
| seqs.dfy | `Seqs` | list comprehension filters, `next(...)` searches, and the order-keeping lemmas about them |
| profiles.dfy | `Profiles` | `save_profile`, `delete_profile`, and the profile lookup |
| tasks.dfy | `TaskStore` | `create_task`, `update_task`, `delete_task`, and `get_tasks` with its auto-copy |
| logbatch.dfy | `BatchLog` | `log_batch` |
| cache.dfy | `TimeEntryCache` | `update_cache_with_entry`, `remove_from_cache`, and the cached branch of `get_time_entries` |
| redmine.dfy | `RedmineUtility` | `_get_activity_map` and `create_time_entry` of the wrapper |
| planner.dfy | `Planner` | `PlannerView`'s handlers, and what crosses between page and backend |
| settings.dfy | `Settings` | `SettingsView`'s `saveProfile` and `handleEditProfile` |
| calendar.dfy | `Calendar` | `CalendarView`'s `handleDateSelect` and event placement |

## Model

| member | source | states |
|---|---|---|
| Profiles.FindProfile | src/components/PlannerView.tsx:115 | Finds nothing exactly when no profile has the name; otherwise finds the first profile with it. |
| Profiles.DeleteProfile | backend/main.py:40-52 | Refused with "Profile not found" exactly when no profile has the name. Otherwise no profile with the name is left, and every other profile is kept in its order, each copy of it: the list shrinks by exactly the number of profiles with the name. |
| Profiles.SaveProfile | backend/main.py:213-219 | Upsert by name: a new name is appended at the end; an existing name overwrites the first profile with it in place, with the count unchanged. |
| Profiles.SaveThenFind | backend/main.py:213-219 | After a save, looking up the name finds exactly the saved profile. |
| Profiles.SaveIdempotent | backend/main.py:213-219 | Saving the same profile twice is the same as saving it once. |
| Profiles.SaveThenDeleteRestores | backend/main.py:42-52 | Deleting a freshly added name gives back the list before the save. |
| TaskStore.FindTask | backend/main.py:588 | Finds nothing exactly when no record has the id; otherwise the position of the first record with it. |
| TaskStore.CreateTask | backend/main.py:584-594 | Upsert by id. An existing record takes the posted fields and keeps its day. A new record is appended without a day, because the `Task` schema has no `date`. |
| TaskStore.CreateTaskOn | backend/main.py:584-594 | The corrected upsert: the record, new or existing, is stored under the posted day. |
| TaskStore.UpdateTask | backend/main.py:596-604 | An unknown id is refused with "Task not found". Otherwise only the first record with the id changes: it takes the body's fields and keeps its day. |
| TaskStore.UpdateThenFind | backend/main.py:599-603 | After an update that keeps the id, the record found under it is the new task on the old day. |
| TaskStore.DeleteTask | backend/main.py:606-624 | No record with the id is left, and every other record is kept in its order, each copy of it: the list shrinks by exactly the number of records with the id. A remote deletion is attempted exactly when the flag is set, a client exists and the first record with the id has a truthy `time_entry_id`; it targets that entry. |
| TaskStore.OnDay | backend/main.py:545 | The records dated that day, and only those, in stored order and with every copy: it leaves out exactly the records of other days. |
| TaskStore.MostRecentBefore | backend/main.py:554-561 | The greatest stored day before today, or nothing exactly when no record is dated before today. |
| TaskStore.CopyAll | backend/main.py:565-576 | One copy per source record. Each copy has the fresh id, today's day, `is_logged` false and no logging fields; all other fields are equal. |
| TaskStore.AutoCopy | backend/main.py:551-580 | Appends copies of exactly the most recent earlier day's records, all dated today, and leaves the originals untouched. Copies nothing exactly when no earlier day exists. |
| TaskStore.GetTasksWith | backend/main.py:536-582 | The corrected fetch with an auto-copy switch. The result is the requested day's records of the saved list, and the old list is a prefix of the saved one. The list grows only when the switch allows it, the day is today and today is empty. With the switch set, nothing is written. |
| TaskStore.GetTasks | backend/main.py:536-582 | The fetch as written. The result is the requested day's records of the saved list, and the old list is a prefix of the saved one. When today is requested and empty, the saved list is exactly the auto-copy's, so it grows whenever an earlier day exists; otherwise nothing is written. |
| TaskStore.GetTasksStable | backend/main.py:545-551 | Fetching again returns the same list and writes nothing. |
| TaskStore.CreatedTaskNeverListed | backend/main.py:510-520 | A newly created task is never listed for any day. |
| TaskStore.CreatedOnDayIsListed | backend/main.py:584-594 | With the day kept, a created task is listed on its day. |
| TaskStore.DeleteThenRefetchRefills | src/components/PlannerView.tsx:162-168 | Deleting the last task of the page's day and fetching that day again, as the planner does, refills it when the page's day is the backend's today: the list returned is exactly the auto-copy of the most recent earlier day's records, and the saved list is the old one followed by those copies. When the page's UTC day differs from the backend's local today, the fetch copies nothing and returns an empty list. |
| TaskStore.CacheAfterDelete | backend/main.py:606-624 | As written the delete leaves the time-entry cache as it was. The corrected delete drops exactly the entries with the deleted Redmine entry's id and keeps every other entry in its order, each copy of it (the list shrinks by the number of entries with that id), and it does so only when that deletion was attempted and did not fail. |
| TaskStore.DeletedEntryStillListed | backend/main.py:606-624 | As written, an entry deleted from Redmine with its task is still answered from the cache for its day. |
| TaskStore.DeletedEntryUnlisted | backend/main.py:155-159 | With the corrected delete, no entry with the deleted id is answered from the cache for any range, and every other entry in range still is. |
| BatchLog.Eligible | backend/main.py:640-642 | The skip rule: a batch task is submitted unless its own `last_logged_date` is today or its planned hours are not positive. RunCounts and RunNothingEligible state what skipping does to the run. |
| BatchLog.EntryFor | backend/main.py:646-662 | The request uses the task's issue and hours and today's date. Activity falls back to 9 and is never 0. Comments fall back to the task's name, and team to "N/A", in custom field 93. |
| BatchLog.MarkLogged | backend/main.py:666-672 | Only the first record with the id changes: it gets today's `last_logged_date` and the new `time_entry_id`. Its day, plan and `is_logged` are kept. |
| BatchLog.RunCounts | backend/main.py:639-674 | `logged` is the number of eligible, successful tasks. Requests sent, and `logged` plus errors, both equal the number of eligible tasks. |
| BatchLog.RunErrors | backend/main.py:679-687 | Errors are added exactly when some eligible task was rejected. |
| BatchLog.RunNothingEligible | backend/main.py:639-642 | When no task is eligible, no request is sent, nothing is counted, the saved list equals the loaded one and the cache is untouched. |
| BatchLog.RunKeepsPlan | backend/main.py:668-672 | The batch changes only the two logging fields of any record; it never sets `is_logged`. |
| BatchLog.RunLeavesOthers | backend/main.py:668-672 | A record whose id no successful task carries is left exactly as it was. |
| BatchLog.RunLastSuccessWins | backend/main.py:668-672 | The first record with a successful task's id ends logged today, holding the entry id of the last such success. |
| BatchLog.RunCacheSources | backend/main.py:674-677 | Every entry in the cache after the run was there before or was read back for one of the batch's created entries. |
| BatchLog.RunCacheUntouched | backend/main.py:674-677 | When no created entry could be read back, the cache is left as it was. |
| BatchLog.RunCacheEndsWithLast | backend/main.py:674-677 | When the batch's last task is created and read back, its entry ends the cache. |
| BatchLog.Status | backend/main.py:684-687 | The reply without a client has no status. A completed run replies "partial_success" exactly when it has errors, and "success" exactly when it has none. |
| BatchLog.ErrorField | backend/main.py:629-630 | Only the reply without a client carries an error, and it is "Redmine not configured". |
| BatchLog.LogBatch | backend/main.py:626-687 | The loop, with its inner first-match search and its cache refresh after each created entry, computes the reference run. Without a client, nothing is written and the cache is untouched. `logged` counts successes, and `logged` plus errors equals the requests sent, at most the batch size. The status is "partial_success" exactly when some eligible task was rejected. |
| BatchLog.MarkLoggedFixed | backend/main.py:668-672 | The corrected success record also sets `is_logged`, keeping the invariant that every logged record has a time entry. |
| TimeEntryCache.UpdateCacheWithEntry | backend/main.py:123-153 | Without a client or a fetched entry, nothing changes. Otherwise the entries with that id are dropped and every other entry is kept in its order, each copy of it; the fetched entry ends the list. |
| TimeEntryCache.RemoveFromCache | backend/main.py:155-159 | Drops exactly the entries with that id and keeps every other entry in its order, each copy of it. No endpoint calls it as written; the corrected delete does. |
| TimeEntryCache.RemoveUndoesUpdate | backend/main.py:155-159 | Refreshing an entry and then removing it equals removing it alone. |
| TimeEntryCache.UpdateIdempotent | backend/main.py:134-149 | Refreshing the same entry twice equals refreshing it once. |
| TimeEntryCache.CachedTimeEntries | backend/main.py:458-471 | Answered from the cache exactly when it has entries: those within each given bound. |
| TimeEntryCache.RefreshedEntryListed | backend/main.py:459-471 | A refreshed entry is answered from the cache for every range that contains its day. |
| RedmineUtility.ActivityMap | backend/packages/redmine/redmine_utility.py:11-29 | The table's ids are the fifteen listed ids, and 9 is "Development". |
| RedmineUtility.ActivityCount | backend/packages/redmine/redmine_utility.py:13-29 | The table has fifteen entries. |
| RedmineUtility.EntryPayload | backend/packages/redmine/redmine_utility.py:40-56 | `hours` and `comments` are always present. `issue_id` is present iff the issue is truthy, and `project_id` iff there is no issue and the project is truthy. `activity_id` and `spent_on` are present only when set. No other keys appear. |
| RedmineUtility.SingleTarget | backend/packages/redmine/redmine_utility.py:45-48 | A payload never names both an issue and a project. |
| RedmineUtility.PayloadRoundTrip | backend/packages/redmine/redmine_utility.py:40-54 | Reading a payload back gives its arguments, less the falsy optional values and any project overridden by an issue. |
| Planner.FindIssue | src/components/PlannerView.tsx:180 | Finds nothing exactly when no option has the id; otherwise the first option with it. |
| Planner.ResolveName | src/components/PlannerView.tsx:180-189 | The name priority: a non-empty comment, then a non-empty profile name, then the subject of the selected issue's option, then "Unknown Task". |
| Planner.AddTask | src/components/PlannerView.tsx:177-203 | Nothing is sent exactly when no issue is selected. Otherwise the task is new and unlogged, dated with the page's UTC day, with the selected issue, the hours (0 when empty), and the form's activity, team and comment. |
| Planner.AfterAdd | src/components/PlannerView.tsx:211-217 | After an add, the form is reset to its initial state except for the selected project. |
| Planner.AppendIfAbsent | src/components/PlannerView.tsx:128-146 | The list is unchanged when an entry with the id exists; otherwise the entry is appended. |
| Planner.AppendIfAbsentKeepsUnique | src/components/PlannerView.tsx:129-135 | Injection keeps the ids unique, and afterwards the id is present. |
| Planner.AppendIfAbsentIdempotent | src/components/PlannerView.tsx:140-146 | Injecting twice is the same as injecting once. |
| Planner.SelectProfile | src/components/PlannerView.tsx:114-153 | An unknown name changes nothing. A known profile fills the form, falling back to team "N/A" and comment "". The project is injected only with a name and a non-zero id. The issue is injected likewise; otherwise the project's issues are fetched. |
| Planner.ProfileNamesTask | src/components/PlannerView.tsx:114-189 | Adding right after selecting a profile works iff its issue is non-zero. The task is named after the profile's comment, or after the profile when there is none. |
| Planner.ReplaceById | src/components/PlannerView.tsx:281 | Tasks with the updated id become the update; every other task and the length are kept. |
| Planner.ReplaceByIdPresence | src/components/PlannerView.tsx:281 | The update is in the list afterwards iff its id was there or it was already there. Updating twice equals updating once. |
| Planner.FindById | src/components/PlannerView.tsx:225 | Finds nothing exactly when no task has the id; otherwise the first task with it. |
| Planner.DeleteRequest | src/components/PlannerView.tsx:224-237 | An unknown id sends nothing. Otherwise the remote entry is deleted too iff the task is logged and the user confirms. |
| Planner.LogTask | src/components/PlannerView.tsx:245-264 | A logged or unconfirmed task sends nothing. "success" and "partial_success" refresh, other replies alert with their error or "Unknown error", and a failed request alerts without detail. |
| Planner.RowButtons | src/components/PlannerView.tsx:473-493 | The log and the delete button are each drawn exactly when the task is not logged. |
| Planner.Badge | src/components/PlannerView.tsx:470 | The badge reads LOGGED exactly when the task is logged, and PENDING exactly when the row draws its buttons. |
| Planner.RowButtonsReachHandlers | src/components/PlannerView.tsx:224-245 | Through a row's buttons, a confirmed log always sends the task, and a delete never asks to delete the Redmine entry. |
| Planner.ToBackend | backend/main.py:510-520 | The posted body as the schema parses it: each of the ten schema fields equals the page's field of the same name, and the day is dropped. |
| Planner.FromStored | src/components/PlannerView.tsx:3-13 | A fetched record as the page holds it: each of the eleven page fields equals the record's field of the same name, with the record's day as `date`. |
| Planner.BackendRoundTrip | backend/main.py:510-520 | Sending a fetched task back gives its schema fields unchanged, and the page's view of the result is the task itself. |
| Planner.AddedTaskNotListed | src/components/PlannerView.tsx:191-218 | A task added on the page is dated with the page's day, but no later fetch lists it, for any `date_str` asked for and whatever the backend's today is. |
| Planner.LoggedTaskOrphansEntry | src/components/PlannerView.tsx:224-236 | After a successful batch log, the record has an entry but is not logged. The row still reads PENDING with its log and delete buttons. Deleting it never asks to delete the entry, even with confirmation, and the backend deletes none. |
| Planner.FixedLogShowsLogged | src/components/PlannerView.tsx:470-493 | With the corrected success record, the row reads LOGGED with the new entry id and draws neither the log nor the delete button, and logging it sends nothing. |
| Planner.LogOneTask | src/components/PlannerView.tsx:255-260 | Logging one task refreshes iff Redmine is configured, even when the entry was rejected. An unconfigured backend is reported with its error. |
| Settings.FindProject | src/components/SettingsView.tsx:167 | Finds nothing exactly when no project option has the id; otherwise the first option with it. |
| Settings.SaveProfileForm | src/components/SettingsView.tsx:143-191 | Succeeds iff the form is complete, and the first missing item decides the message. Name, comment, activity and team are always carried. Project mode has issue 0, the project, and, iff listed, the name of the first option with its id. Issue mode has the issue; project and names come from the lookup, else project 0. |
| Settings.EditProfile | src/components/SettingsView.tsx:226-240 | Issue mode iff the issue id is positive, with that id; otherwise project mode with the project. The other mode's field is left alone. |
| Settings.EditThenSaveProject | src/components/SettingsView.tsx:153-168 | A project-mode profile consistent with the options is saved back unchanged after editing. |
| Settings.EditThenSaveIssue | src/components/SettingsView.tsx:169-184 | An issue-mode profile consistent with the lookup is saved back unchanged after editing. |
| Settings.ProjectProfileAddsNothing | src/components/SettingsView.tsx:160-166 | A profile saved in project mode has issue 0, so pressing add right after selecting it in the planner sends nothing; the user must first pick an issue of its project. |
| Calendar.LunchOverlap | src/components/CalendarView.tsx:169-184 | The overlap with the start day's lunch lies between 0 and 60 minutes and is at most the span. It is positive iff the later start precedes the earlier end, and it is 0 for a span disjoint from lunch. |
| Calendar.SelectedMinutes | src/components/CalendarView.tsx:161-186 | For an ordered span, the duration lies between 0 and the span, and it is the whole span when disjoint from lunch. |
| Calendar.SelectionCountsWorkMinutes | src/components/CalendarView.tsx:165-184 | The duration equals a minute-by-minute count of the selected minutes outside the start day's lunch. |
| Calendar.EventStart | src/components/CalendarView.tsx:71-72 | An event starts at its stored time on its day, or at 09:00 when there is none. |
| Calendar.RenderedEnd | src/components/CalendarView.tsx:74-85 | The end is the start plus the hours, plus one hour exactly when the start is before noon and the plain end after it. With non-negative hours it is not before the plain end. |
| Calendar.RenderedRoundTrip | src/components/CalendarView.tsx:75-85 | Selecting a drawn event again gives back its hours, unless it starts during lunch. |
| Calendar.LunchStartLosesTime | src/components/CalendarView.tsx:83-85 | An hour starting at 12:30 is not extended, and selecting it again gives 30 minutes. |
| Calendar.EndLabel | src/components/CalendarView.tsx:87-96 | The drawn end is the end's time of day placed on the entry's own day. |
| Calendar.LongEntryEndsBeforeStart | src/components/CalendarView.tsx:87-96 | A sixteen-hour entry from 09:00 is drawn ending at 02:00 of its own day, before it starts. |
| Calendar.EndLabelFixed | src/components/CalendarView.tsx:87-96 | The corrected end keeps the end's own day, so it denotes the end instant exactly. |
| Calendar.FixedLabelNotBeforeStart | src/components/CalendarView.tsx:87-96 | With the corrected end, no event with non-negative hours ends before it starts. |

## Left out

- File storage, FastAPI routing, YAML/JSON and process start-up are replaced by values passed in and out.
- Calls to Redmine are not modelled: entry creation and deletion, issue and project fetches, sync, and `get_issue_details`. Their results are parameters.
- `uuid4()`, `Date.now()`, `date.today()` and `new Date()` are parameters; fresh ids are assumed distinct. The backend's local `date.today()` and the page's UTC day from `toISOString()` are separate parameters wherever both occur.
- Floating-point hours, `toFixed(1)` rounding and the planned-hours totals are not modelled; hours are integer tenths or minutes.
- Non-numeric input parsed by `Number`/`parseFloat` (NaN) is not modelled.
- React state timing, the `setTimeout` flag, the localStorage caches of projects and issues, and `alert`/`confirm` (booleans here) are not modelled.
- The `POST /api/redmine/time_entries` endpoint of backend/main.py is not part of this model. `log_batch` calls the library directly and does not go through the wrapper.
- The backend's own fetch of time entries, when the cache has no entries key, is not part of this model.
- The cache refresh in the `POST /api/redmine/time_entries` endpoint (main.py line 451) is not part of this model, with that endpoint.
- The issue fetch that selecting a profile may trigger is returned as a request; the list it replaces the options with is not modelled.
- Profiles.SaveProfile: models `existing.update(...)` as replacing the profile. Stored profiles carry only schema keys, so extra keys a hand-edited file might hold are not modelled.
- TaskStore.MostRecentBefore: records whose `date` key holds `null` would make the source's sort raise; here a missing and a null date are the same `None`.
- TimeEntryCache.CachedTimeEntries: states which entries are returned and that there are no more of them than cached; it does not state that the cache order is kept.
- TimeEntryCache.UpdateCacheWithEntry: the creation and update stamps of an entry are not modelled.
- Settings.EditProfile: a stored profile with a `null` comment fills the field with "" here; the page would set it to `null`.
- Calendar.EventStart: the start time is taken as minutes of the day; the parsing of the `HH:MM:SS` string is not modelled.

## Findings

| source | as written | input that shows it | evidently intended | confidence | as-written member | corrected member |
|---|---|---|---|---|---|---|
| backend/main.py:510-520 | The `Task` schema has no `date`, so `create_task` stores a new task without the day the planner posted. `get_tasks` then never lists it. | Any task added on the planner page: its body has `date` = today. | The task is stored on its posted day and listed for that day. | not executed; high | TaskStore.CreatedTaskNeverListed | TaskStore.CreatedOnDayIsListed |
| backend/main.py:666-672 | A successful `log_batch` sets `last_logged_date` and `time_entry_id` but never `is_logged`. The row keeps reading PENDING with its log and delete buttons, and deleting it never deletes the Redmine entry. | Log one unlogged task with planned hours, then delete it from its row: `delete_from_redmine` is false and the entry stays. | Mark the record logged together with its entry, so the row reads LOGGED and offers neither log nor delete. | not executed; medium | Planner.LoggedTaskOrphansEntry | Planner.FixedLogShowsLogged |
| src/components/PlannerView.tsx:162-168 | `fetchTasks(true)` is meant to prevent auto-copy but only adds `date_str` = the page's day. The backend copies whenever the requested day is its today and empty, which happens whenever the page's UTC day is the backend's local day. | Delete today's only task while an earlier day has tasks: the refetch copies that day into today. | The refetch after a delete does not auto-copy. | not executed; high | TaskStore.DeleteThenRefetchRefills | TaskStore.GetTasksWith |
| src/components/CalendarView.tsx:87-96 | An event's end is drawn as the end's time of day on the entry's own day, even when the end falls on the next day. | An entry of 16 hours without a start time: it runs 09:00 to 02:00 of the same day. | The end keeps its own day. | not executed; medium | Calendar.LongEntryEndsBeforeStart | Calendar.EndLabelFixed |
| backend/main.py:606-624 | `delete_task` deletes the Redmine time entry but never calls `remove_from_cache`, which no endpoint calls. The calendar's time entries are answered from the cache, so the deleted entry stays listed. | A direct `DELETE /api/tasks/{id}?delete_from_redmine=true` on a record whose `time_entry_id` is cached: the calendar's query for that day still returns it. The planner page cannot send this request, since its delete button is drawn only for unlogged tasks. | Drop the deleted entry from the cache once Redmine has deleted it. | not executed; medium | TaskStore.DeletedEntryStillListed | TaskStore.DeletedEntryUnlisted |
