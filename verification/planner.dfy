/** The daily planner page: the add-task form, loading a profile into it,
    and the local effects of updating, deleting and logging a task. Backend
    requests are returned as values; the backend's answers, the clock, the
    millisecond id and the browser's confirm dialog are parameters.
 */
module Planner {
  import opened Common
  import opened Seqs
  import TaskStore
  import BatchLog
  import Profiles
  import TimeEntryCache

  /** A task as the page holds it: the fields of its `Task` interface, plus
      the two logging keys that the fetched records carry along although the
      interface does not declare them. */
  datatype Task = Task(
    id: string,
    name: string,
    redmineIssueId: Option<int>,
    plannedHours: Tenths,
    isLogged: bool,
    date: Option<Date>,
    activityId: Option<int>,
    rdFunctionTeam: Option<string>,
    comments: Option<string>,
    lastLoggedDate: Option<Date>,
    timeEntryId: Option<int>)

  datatype ProjectOption = ProjectOption(id: int, name: string)
  datatype IssueOption = IssueOption(id: int, subject: string)

  /** The add-task form. An empty issue selection is `None`; an empty hours
      field is `None`. */
  datatype Form = Form(
    profileName: string,
    projectId: Option<int>,
    issueId: Option<int>,
    hours: Option<Tenths>,
    activityId: Option<int>,
    rdTeam: string,
    comment: string)

  /** The form as the page opens: no selection, 8 hours, team "N/A". */
  const InitialForm := Form("", None, None, Some(80), None, "N/A", "")

  // ---------------------------------------------------------------------
  // Adding a task

  function IssueHasId(id: int): IssueOption -> bool {
    (i: IssueOption) => i.id == id
  }

  /** The first issue option with id `id` is at `k`. */
  predicate IssueFirstAt(issues: seq<IssueOption>, id: int, k: int) {
    FirstAt(issues, IssueHasId(id), k)
  }

  /** `issues.find(i => i.id === id)`. */
  function FindIssue(issues: seq<IssueOption>, id: int): (r: Option<IssueOption>)
    ensures r.None? <==> forall j :: 0 <= j < |issues| ==> issues[j].id != id
    ensures r.Some? ==> exists k :: IssueFirstAt(issues, id, k) && issues[k] == r.value
  {
    match FirstIndex(issues, IssueHasId(id))
    case None => None
    case Some(k) =>
      assert IssueFirstAt(issues, id, k);
      Some(issues[k])
  }

  /** The new task's name: the comment if it is non-empty, else the
      profile name if that is non-empty, else the subject of the selected
      issue if it is among the options, else "Unknown Task". */
  function ResolveName(comment: string, profileName: string, issues: seq<IssueOption>, issueId: int): (name: string)
    ensures comment != "" ==> name == comment
    ensures comment == "" && profileName != "" ==> name == profileName
    ensures comment == "" && profileName == "" ==>
      forall k :: IssueFirstAt(issues, issueId, k) ==> name == issues[k].subject
    ensures comment == "" && profileName == "" && (forall j :: 0 <= j < |issues| ==> issues[j].id != issueId) ==>
      name == "Unknown Task"
  {
    if comment != "" then comment
    else if profileName != "" then profileName
    else match FindIssue(issues, issueId)
      case Some(issue) => issue.subject
      case None => "Unknown Task"
  }

  /** `handleAddTask`: without a selected issue nothing happens; otherwise
      the request body is a new, unlogged task for the page's day with the
      selected issue, the form's hours (0 when the field is empty), and the
      form's activity, team and comment. The page's day is the UTC date of
      `toISOString()`, which need not be the backend's local `date.today()`. */
  function AddTask(form: Form, issues: seq<IssueOption>, pageDay: Date, newId: string): (r: Option<Task>)
    ensures r.None? <==> !IntTruthy(form.issueId)
    ensures r.Some? ==>
      && r.value.id == newId
      && r.value.name == ResolveName(form.comment, form.profileName, issues, form.issueId.value)
      && r.value.redmineIssueId == form.issueId
      && r.value.plannedHours == form.hours.GetOr(0)
      && !r.value.isLogged
      && r.value.date == Some(pageDay)
      && r.value.activityId == form.activityId
      && r.value.rdFunctionTeam == Some(form.rdTeam)
      && r.value.comments == Some(form.comment)
      && r.value.lastLoggedDate.None? && r.value.timeEntryId.None?
  {
    if !IntTruthy(form.issueId) then None
    else
      Some(Task(newId, ResolveName(form.comment, form.profileName, issues, form.issueId.value),
                form.issueId, form.hours.GetOr(0), false, Some(pageDay),
                form.activityId, Some(form.rdTeam), Some(form.comment), None, None))
  }

  /** The form after a successful add: everything but the project is reset. */
  function AfterAdd(form: Form): (r: Form)
    ensures r.projectId == form.projectId
    ensures r.(projectId := None) == InitialForm
  {
    InitialForm.(projectId := form.projectId)
  }

  // ---------------------------------------------------------------------
  // Loading a profile into the form

  /** No two entries of `list` share an id. */
  predicate UniqueIds<T>(list: seq<T>, idOf: T -> int) {
    forall i, j :: 0 <= i < j < |list| ==> idOf(list[i]) != idOf(list[j])
  }

  /** Some entry of `list` has the id `id`. */
  predicate HasEntry<T>(list: seq<T>, idOf: T -> int, id: int) {
    exists i :: 0 <= i < |list| && idOf(list[i]) == id
  }

  /** Adds `item` at the end unless an entry with its id is already there. */
  function AppendIfAbsent<T>(list: seq<T>, item: T, idOf: T -> int): (r: seq<T>)
    ensures HasEntry(list, idOf, idOf(item)) ==> r == list
    ensures !HasEntry(list, idOf, idOf(item)) ==> r == list + [item]
  {
    if exists i :: 0 <= i < |list| && idOf(list[i]) == idOf(item) then list else list + [item]
  }

  /** Injection keeps the ids unique, and afterwards the id is present. */
  lemma AppendIfAbsentKeepsUnique<T>(list: seq<T>, item: T, idOf: T -> int)
    requires UniqueIds(list, idOf)
    ensures var r := AppendIfAbsent(list, item, idOf);
      UniqueIds(r, idOf) && HasEntry(r, idOf, idOf(item))
  {
    var r := AppendIfAbsent(list, item, idOf);
    if !HasEntry(list, idOf, idOf(item)) {
      assert idOf(r[|list|]) == idOf(item);
    }
  }

  /** Injecting the same entry twice is the same as injecting it once. */
  lemma AppendIfAbsentIdempotent<T>(list: seq<T>, item: T, idOf: T -> int)
    ensures var r := AppendIfAbsent(list, item, idOf);
      AppendIfAbsent(r, item, idOf) == r
  {
    var r := AppendIfAbsent(list, item, idOf);
    if !HasEntry(list, idOf, idOf(item)) {
      assert idOf(r[|list|]) == idOf(item);
    }
  }

  function ProjectIdOf(): ProjectOption -> int {
    (p: ProjectOption) => p.id
  }

  function IssueIdOf(): IssueOption -> int {
    (i: IssueOption) => i.id
  }

  /** The page state that selecting a profile touches, and the project
      whose issues are fetched afresh, if any. */
  datatype Selection = Selection(form: Form, projects: seq<ProjectOption>, issues: seq<IssueOption>,
                                 fetchIssuesOf: Option<int>)

  /** `handleProfileSelect`. An unknown name changes nothing. A known
      profile fills the form (team "N/A" and comment "" when the profile's
      are falsy); its project is injected into the options when it carries
      a project name and a non-zero id, and its issue likewise when it
      carries an issue name and a non-zero id; otherwise the project's issues
      are fetched. */
  function SelectProfile(profiles: seq<Profiles.Profile>, name: string, form: Form,
                         projects: seq<ProjectOption>, issues: seq<IssueOption>): (r: Selection)
    ensures Profiles.NoneNamed(profiles, name) ==> r == Selection(form, projects, issues, None)
    ensures !Profiles.NoneNamed(profiles, name) ==>
      exists k :: Profiles.FirstNamedAt(profiles, name, k) &&
        var p := profiles[k];
        && r.form.profileName == p.name
        && r.form.projectId == Some(p.projectId)
        && r.form.issueId == Some(p.issueId)
        && r.form.activityId == Some(p.activityId)
        && r.form.rdTeam == StrOr(p.rdFunctionTeam, "N/A")
        && r.form.comment == StrOr(p.comments, "")
        && r.form.hours == form.hours
        && (StrTruthy(p.projectName) && p.projectId != 0 ==>
              r.projects == AppendIfAbsent(projects, ProjectOption(p.projectId, p.projectName.value), ProjectIdOf()))
        && (!(StrTruthy(p.projectName) && p.projectId != 0) ==> r.projects == projects)
        && (StrTruthy(p.issueName) && p.issueId != 0 ==>
              r.issues == AppendIfAbsent(issues, IssueOption(p.issueId, p.issueName.value), IssueIdOf())
              && r.fetchIssuesOf == None)
        && (!(StrTruthy(p.issueName) && p.issueId != 0) ==>
              r.issues == issues && r.fetchIssuesOf == Some(p.projectId))
  {
    match Profiles.FindProfile(profiles, name)
    case None => Selection(form, projects, issues, None)
    case Some(p) =>
      var form' := form.(profileName := p.name, projectId := Some(p.projectId), activityId := Some(p.activityId),
                         rdTeam := StrOr(p.rdFunctionTeam, "N/A"), comment := StrOr(p.comments, ""),
                         issueId := Some(p.issueId));
      var projects' :=
        if StrTruthy(p.projectName) && p.projectId != 0
        then AppendIfAbsent(projects, ProjectOption(p.projectId, p.projectName.value), ProjectIdOf())
        else projects;
      if StrTruthy(p.issueName) && p.issueId != 0 then
        Selection(form', projects', AppendIfAbsent(issues, IssueOption(p.issueId, p.issueName.value), IssueIdOf()), None)
      else
        Selection(form', projects', issues, Some(p.projectId))
  }

  /** A task added right after selecting a profile is named after the
      profile's comment when it has one, and after the profile otherwise. */
  lemma ProfileNamesTask(profiles: seq<Profiles.Profile>, name: string, form: Form,
                         projects: seq<ProjectOption>, issues: seq<IssueOption>, today: Date, newId: string)
    requires !Profiles.NoneNamed(profiles, name) && name != ""
    ensures var s := SelectProfile(profiles, name, form, projects, issues);
      var p := Profiles.FindProfile(profiles, name).value;
      var t := AddTask(s.form, s.issues, today, newId);
      && (t.Some? <==> p.issueId != 0)
      && (t.Some? ==> t.value.name == StrOr(p.comments, name) && t.value.redmineIssueId == Some(p.issueId))
  {
    var s := SelectProfile(profiles, name, form, projects, issues);
    var k :| Profiles.FirstNamedAt(profiles, name, k) && s.form.profileName == profiles[k].name
             && s.form.issueId == Some(profiles[k].issueId) && s.form.comment == StrOr(profiles[k].comments, "");
    var k' :| Profiles.FirstNamedAt(profiles, name, k') && profiles[k'] == Profiles.FindProfile(profiles, name).value;
    FirstAtUnique(profiles, Profiles.Named(name), k, k');
  }

  // ---------------------------------------------------------------------
  // Updating, deleting and logging

  /** `handleUpdateTask`'s local effect: every task with the updated
      task's id is replaced by it; the others and the length are kept. */
  function ReplaceById(tasks: seq<Task>, t: Task): (r: seq<Task>)
    ensures |r| == |tasks|
    ensures forall i :: 0 <= i < |tasks| && tasks[i].id == t.id ==> r[i] == t
    ensures forall i :: 0 <= i < |tasks| && tasks[i].id != t.id ==> r[i] == tasks[i]
  {
    seq(|tasks|, i requires 0 <= i < |tasks| => if tasks[i].id == t.id then t else tasks[i])
  }

  /** The local list holds `t` after the update exactly when it held its
      id before or already held `t`; a second identical update changes
      nothing. */
  lemma ReplaceByIdPresence(tasks: seq<Task>, t: Task)
    ensures t in ReplaceById(tasks, t) <==> t in tasks || exists i :: 0 <= i < |tasks| && tasks[i].id == t.id
    ensures ReplaceById(ReplaceById(tasks, t), t) == ReplaceById(tasks, t)
  {
    var r := ReplaceById(tasks, t);
    if t in r {
      var i :| 0 <= i < |r| && r[i] == t;
      assert tasks[i].id == t.id;
    }
  }

  /** The backend request of `handleDeleteTask`. */
  datatype DeleteCall = DeleteCall(taskId: string, deleteFromRedmine: bool)

  function TaskHasId(id: string): Task -> bool {
    (t: Task) => t.id == id
  }

  /** `tasks.find(t => t.id === id)`. */
  function FindById(tasks: seq<Task>, id: string): (r: Option<nat>)
    ensures r.None? <==> forall j :: 0 <= j < |tasks| ==> tasks[j].id != id
    ensures r.Some? ==> r.value < |tasks| && tasks[r.value].id == id &&
                        forall j :: 0 <= j < r.value ==> tasks[j].id != id
  {
    FirstIndex(tasks, TaskHasId(id))
  }

  /** `handleDeleteTask`: nothing for an unknown id; otherwise the remote
      time entry is to be deleted too only when the task is logged and the
      user confirms (the question is asked only for a logged task). */
  function DeleteRequest(tasks: seq<Task>, taskId: string, confirmed: bool): (r: Option<DeleteCall>)
    ensures r.None? <==> forall j :: 0 <= j < |tasks| ==> tasks[j].id != taskId
    ensures r.Some? ==> r.value.taskId == taskId
    ensures r.Some? ==> forall k :: 0 <= k < |tasks| && tasks[k].id == taskId &&
                                    (forall j :: 0 <= j < k ==> tasks[j].id != taskId) ==>
                          (r.value.deleteFromRedmine <==> tasks[k].isLogged && confirmed)
  {
    match FindById(tasks, taskId)
    case None => None
    case Some(k) => Some(DeleteCall(taskId, tasks[k].isLogged && confirmed))
  }

  /** The backend's reply to `log_batch`, as the page reads it. */
  datatype Reply = Reply(status: Option<string>, error: Option<string>)

  /** The reply the endpoint sends for its response. */
  function ReplyOf(r: BatchLog.Response): Reply {
    Reply(BatchLog.Status(r), BatchLog.ErrorField(r))
  }

  /** What `handleLogTask` ends in. */
  datatype LogReaction = NoRequest | Refresh | Alert(message: string)

  /** `handleLogTask`: a logged task, or an unconfirmed one, sends nothing.
      Otherwise the task is sent as a one-task batch; a reply whose status
      is "success" or "partial_success" refreshes the list, any other
      reply alerts with its error ("Unknown error" when it has none), and a
      failed request (`None`) alerts without detail. */
  function LogTask(task: Task, confirmed: bool, reply: Option<Reply>): (r: LogReaction)
    ensures task.isLogged || !confirmed ==> r == NoRequest
    ensures !task.isLogged && confirmed && reply.None? ==> r == Alert("Failed to log task")
    ensures !task.isLogged && confirmed && reply.Some? ==>
      (r == Refresh <==> reply.value.status in {Some("success"), Some("partial_success")})
    ensures !task.isLogged && confirmed && reply.Some? && r != Refresh ==>
      r == Alert("Failed to log task: " + StrOr(reply.value.error, "Unknown error"))
  {
    if task.isLogged || !confirmed then NoRequest
    else match reply
      case None => Alert("Failed to log task")
      case Some(rep) =>
        if rep.status == Some("success") || rep.status == Some("partial_success") then Refresh
        else Alert("Failed to log task: " + StrOr(rep.error, "Unknown error"))
  }

  /** A button of a task's row. */
  datatype RowButton = LogButton | DeleteButton

  /** The buttons a task's row draws: log and delete, both only while the
      task is not logged. */
  function RowButtons(t: Task): (r: set<RowButton>)
    ensures LogButton in r <==> !t.isLogged
    ensures DeleteButton in r <==> !t.isLogged
  {
    if t.isLogged then {} else {LogButton, DeleteButton}
  }

  /** The status badge of a task's row: "LOGGED" for a logged task, and
      "PENDING" exactly when the row offers its buttons. */
  function Badge(t: Task): (r: string)
    ensures r == "LOGGED" <==> t.isLogged
    ensures r == "PENDING" <==> RowButtons(t) != {}
  {
    if t.isLogged then "LOGGED" else "PENDING"
  }

  /** The handlers are reached only through the row's buttons, so from the
      page a confirmed log always sends the task, and a delete never asks to
      delete a Redmine entry: the delete button of a row is drawn only for
      an unlogged task, and the handler asks only for a logged one. */
  lemma RowButtonsReachHandlers(tasks: seq<Task>, k: nat, confirmed: bool, reply: Option<Reply>)
    requires k < |tasks| && forall j :: 0 <= j < k ==> tasks[j].id != tasks[k].id
    ensures LogButton in RowButtons(tasks[k]) ==> LogTask(tasks[k], true, reply) != NoRequest
    ensures DeleteButton in RowButtons(tasks[k]) ==>
      DeleteRequest(tasks, tasks[k].id, confirmed) == Some(DeleteCall(tasks[k].id, false))
  {
  }

  // ---------------------------------------------------------------------
  // Between the page and the backend

  /** The request body as the backend's `Task` schema parses it: `date` is
      not a schema field and is dropped. */
  function ToBackend(t: Task): (b: TaskStore.Task)
    ensures b.id == t.id && b.name == t.name && b.isLogged == t.isLogged
    ensures b.lastLoggedDate == t.lastLoggedDate && b.timeEntryId == t.timeEntryId
    ensures b.redmineIssueId == t.redmineIssueId && b.plannedHours == t.plannedHours
    ensures b.activityId == t.activityId && b.rdFunctionTeam == t.rdFunctionTeam && b.comments == t.comments
  {
    TaskStore.Task(t.id, t.name, t.redmineIssueId, t.plannedHours, t.isLogged, t.lastLoggedDate,
                   t.timeEntryId, t.activityId, t.rdFunctionTeam, t.comments)
  }

  /** A record of the fetched list as the page holds it. */
  function FromStored(s: TaskStore.StoredTask): (t: Task)
    ensures t.id == s.task.id && t.isLogged == s.task.isLogged && t.date == s.date
    ensures t.name == s.task.name && t.redmineIssueId == s.task.redmineIssueId
    ensures t.plannedHours == s.task.plannedHours && t.activityId == s.task.activityId
    ensures t.rdFunctionTeam == s.task.rdFunctionTeam && t.comments == s.task.comments
    ensures t.lastLoggedDate == s.task.lastLoggedDate && t.timeEntryId == s.task.timeEntryId
  {
    Task(s.task.id, s.task.name, s.task.redmineIssueId, s.task.plannedHours, s.task.isLogged, s.date,
         s.task.activityId, s.task.rdFunctionTeam, s.task.comments, s.task.lastLoggedDate, s.task.timeEntryId)
  }

  /** Sending a fetched task back loses nothing of the record but its day,
      which the store keeps; and the page's task is the fetched record's
      view of the schema fields plus the day. */
  lemma BackendRoundTrip(s: TaskStore.StoredTask, t: Task)
    ensures ToBackend(FromStored(s)) == s.task
    ensures FromStored(TaskStore.StoredTask(ToBackend(t), t.date)) == t
  {
  }

  /** A task added on the page is stored without its day, so no later fetch
      lists it, whichever day the page asks for and whatever day the backend
      takes for today. */
  lemma AddedTaskNotListed(form: Form, issues: seq<IssueOption>, pageDay: Date, newId: string,
                           store: seq<TaskStore.StoredTask>, dateStr: Option<Date>, today: Date, ids: seq<string>)
    requires IntTruthy(form.issueId)
    requires TaskStore.NoTaskWithId(store, newId)
    requires forall i :: 0 <= i < |ids| ==> ids[i] != newId
    requires |ids| > |store|
    ensures var t := AddTask(form, issues, pageDay, newId).value;
      && t.date == Some(pageDay)
      && forall s :: s in TaskStore.GetTasks(TaskStore.CreateTask(store, ToBackend(t)), dateStr, today, ids).tasks ==>
           s.task.id != newId
  {
    var t := AddTask(form, issues, pageDay, newId).value;
    TaskStore.CreatedTaskNeverListed(store, ToBackend(t), dateStr, today, ids);
  }

  /** Logging a task through the batch endpoint leaves its record unlogged
      although it now has a time entry: the page still shows it pending with
      its log and delete buttons, and deleting it never asks to delete that
      entry, even when the user would confirm, so the backend deletes none. */
  lemma LoggedTaskOrphansEntry(t: TaskStore.Task, today: Date, entryId: int,
                               read: Option<TimeEntryCache.CachedEntry>, cache: TimeEntryCache.Cache)
    requires !t.isLogged && BatchLog.Eligible(t, today)
    ensures var store := [TaskStore.StoredTask(t, Some(today))];
      var run := BatchLog.RunFrom(BatchLog.Tally(store, 0, [], [], cache), [t], [BatchLog.Created(entryId, read)], today);
      |run.store| == 1 &&
      var shown := FromStored(run.store[0]);
      && run.store[0].task.timeEntryId == Some(entryId)
      && !shown.isLogged
      && Badge(shown) == "PENDING"
      && RowButtons(shown) == {LogButton, DeleteButton}
      && DeleteRequest([shown], t.id, true) == Some(DeleteCall(t.id, false))
      && TaskStore.DeleteTask(run.store, t.id, false, true).remoteEntry.None?
  {
    var store := [TaskStore.StoredTask(t, Some(today))];
    var acc := BatchLog.Tally(store, 0, [], [], cache);
    var o := BatchLog.Created(entryId, read);
    assert [t][0] == t && [t][1..] == [];
    assert [o][0] == o && [o][1..] == [];
    var run := BatchLog.RunFrom(acc, [t], [o], today);
    var stepped := BatchLog.Step(acc, t, o, today);
    assert run == BatchLog.RunFrom(stepped, [], [], today);
    assert run == stepped;
    assert TaskStore.FirstWithIdAt(store, t.id, 0);
  }

  /** With the success also marking the record logged, the page shows the
      task as logged and offers neither logging it again nor deleting it. */
  lemma FixedLogShowsLogged(t: TaskStore.Task, today: Date, entryId: int)
    requires !t.isLogged
    ensures var store := [TaskStore.StoredTask(t, Some(today))];
      var fixed := BatchLog.MarkLoggedFixed(store, t.id, today, entryId);
      var shown := FromStored(fixed[0]);
      && shown.isLogged
      && shown.timeEntryId == Some(entryId)
      && Badge(shown) == "LOGGED"
      && RowButtons(shown) == {}
      && LogTask(shown, true, None) == NoRequest
  {
    var store := [TaskStore.StoredTask(t, Some(today))];
    assert TaskStore.FirstWithIdAt(store, t.id, 0);
  }

  /** Logging one task from the page: the list is refreshed exactly when
      Redmine is configured, even when the entry itself was rejected; an
      unconfigured backend is reported with its error. */
  lemma LogOneTask(task: Task, store: seq<TaskStore.StoredTask>, cache: TimeEntryCache.Cache, today: Date,
                   configured: bool, outcome: BatchLog.Outcome)
    requires !task.isLogged
    ensures var b := BatchLog.RunFrom(BatchLog.Tally(store, 0, [], [], cache), [ToBackend(task)], [outcome], today);
      var resp := if configured then BatchLog.Completed(b.logged, b.errors) else BatchLog.NotConfigured;
      && (LogTask(task, true, Some(ReplyOf(resp))) == Refresh <==> configured)
      && (!configured ==> LogTask(task, true, Some(ReplyOf(resp))) == Alert("Failed to log task: Redmine not configured"))
  {
    var b := BatchLog.RunFrom(BatchLog.Tally(store, 0, [], [], cache), [ToBackend(task)], [outcome], today);
    if configured {
      var status := BatchLog.Status(BatchLog.Completed(b.logged, b.errors));
      assert status == Some("success") || status == Some("partial_success");
    } else {
      assert ReplyOf(BatchLog.NotConfigured) == Reply(None, Some("Redmine not configured"));
    }
  }
}
