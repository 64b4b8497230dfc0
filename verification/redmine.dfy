/** The Redmine wrapper: the fixed activity table and the shaping of the
    keyword arguments of a time-entry creation. The creation call itself is
    a foreign call and is not part of this model; its arguments are.
 */
module RedmineUtility {
  import opened Common

  /** The ids of the activity table. */
  function KnownIds(): set<int> {
    {8, 9, 10, 14, 20, 61, 62, 71, 72, 73, 74, 75, 76, 77, 78}
  }

  /** The activity ids the planner offers, with their names. */
  function ActivityMap(): (m: map<int, string>)
    ensures m.Keys == KnownIds()
    ensures 9 in m && m[9] == "Development"
  {
    map[20 := "Study Spec", 8 := "Design", 9 := "Development", 10 := "Validation",
        71 := "Maintain", 14 := "Others", 61 := "Support", 73 := "Preparing automation scripts",
        74 := "Regression tests", 75 := "Setup test bed", 76 := "Study/Prepare test cases",
        77 := "Debug session", 78 := "Code Review", 72 := "RFI/ RFQ", 62 := "SCM review"]
  }

  /** The table has fifteen entries. */
  lemma ActivityCount()
    ensures |ActivityMap()| == 15
  {
    KnownIdsCount();
  }

  lemma KnownIdsCount()
    ensures |KnownIds()| == 15
  {
  }

  /** One keyword argument's value. */
  datatype Value = Number(n: int) | Hours(h: Tenths) | Text(s: string) | Day(d: Date)

  /** The keyword arguments of `time_entry.create`: `hours` and `comments`
      always; the issue when it is set, otherwise the project when that is
      set; the activity and the day only when they are set. */
  function EntryPayload(projectId: Option<int>, issueId: Option<int>, hours: Tenths, comments: string,
                        activityId: Option<int>, spentOn: Option<Date>): (data: map<string, Value>)
    ensures "hours" in data && data["hours"] == Hours(hours)
    ensures "comments" in data && data["comments"] == Text(comments)
    ensures "issue_id" in data <==> IntTruthy(issueId)
    ensures "issue_id" in data ==> data["issue_id"] == Number(issueId.value)
    ensures "project_id" in data <==> !IntTruthy(issueId) && IntTruthy(projectId)
    ensures "project_id" in data ==> data["project_id"] == Number(projectId.value)
    ensures "activity_id" in data <==> IntTruthy(activityId)
    ensures "activity_id" in data ==> data["activity_id"] == Number(activityId.value)
    ensures "spent_on" in data <==> spentOn.Some?
    ensures "spent_on" in data ==> data["spent_on"] == Day(spentOn.value)
    ensures data.Keys <= {"hours", "comments", "issue_id", "project_id", "activity_id", "spent_on"}
  {
    var base := map["hours" := Hours(hours), "comments" := Text(comments)];
    var target :=
      if IntTruthy(issueId) then base["issue_id" := Number(issueId.value)]
      else if IntTruthy(projectId) then base["project_id" := Number(projectId.value)]
      else base;
    var withActivity := if IntTruthy(activityId) then target["activity_id" := Number(activityId.value)] else target;
    if spentOn.Some? then withActivity["spent_on" := Day(spentOn.value)] else withActivity
  }

  /** An entry never names both an issue and a project. */
  lemma SingleTarget(projectId: Option<int>, issueId: Option<int>, hours: Tenths, comments: string,
                     activityId: Option<int>, spentOn: Option<Date>)
    ensures var data := EntryPayload(projectId, issueId, hours, comments, activityId, spentOn);
      !("issue_id" in data && "project_id" in data)
  {
  }

  /** What a payload says, read back: each optional argument is present
      exactly when its key is. */
  datatype EntryArgs = EntryArgs(projectId: Option<int>, issueId: Option<int>, hours: Tenths, comments: string,
                                 activityId: Option<int>, spentOn: Option<Date>)

  function ReadNumber(data: map<string, Value>, key: string): Option<int> {
    if key in data && data[key].Number? then Some(data[key].n) else None
  }

  /** Reads the arguments back from a payload; missing required keys read
      as zero hours and an empty comment. */
  function ReadPayload(data: map<string, Value>): (a: EntryArgs)
    ensures a.issueId.Some? ==> "issue_id" in data
    ensures a.projectId.Some? ==> "project_id" in data
  {
    EntryArgs(ReadNumber(data, "project_id"), ReadNumber(data, "issue_id"),
              if "hours" in data && data["hours"].Hours? then data["hours"].h else 0,
              if "comments" in data && data["comments"].Text? then data["comments"].s else "",
              ReadNumber(data, "activity_id"),
              if "spent_on" in data && data["spent_on"].Day? then Some(data["spent_on"].d) else None)
  }

  /** The arguments as the wrapper normalises them: falsy optional values
      are dropped, and a project is dropped when an issue is given. */
  function Normalised(a: EntryArgs): EntryArgs {
    EntryArgs(if !IntTruthy(a.issueId) && IntTruthy(a.projectId) then a.projectId else None,
              if IntTruthy(a.issueId) then a.issueId else None,
              a.hours, a.comments,
              if IntTruthy(a.activityId) then a.activityId else None,
              a.spentOn)
  }

  /** Reading a payload back gives its arguments as normalised: the
      shaping loses exactly the falsy values and the overridden project. */
  lemma PayloadRoundTrip(a: EntryArgs)
    ensures ReadPayload(EntryPayload(a.projectId, a.issueId, a.hours, a.comments, a.activityId, a.spentOn))
         == Normalised(a)
  {
    var data := EntryPayload(a.projectId, a.issueId, a.hours, a.comments, a.activityId, a.spentOn);
    assert ReadNumber(data, "issue_id") == Normalised(a).issueId;
    assert ReadNumber(data, "project_id") == Normalised(a).projectId;
    assert ReadNumber(data, "activity_id") == Normalised(a).activityId;
  }
}
