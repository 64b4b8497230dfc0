/** The profile editor of the settings page: checking the form and building
    the profile it saves, and loading a saved profile back into the form.
    The issue lookup made while saving in issue mode is a parameter: `None`
    when the request failed or the backend reported an error.
 */
module Settings {
  import opened Common
  import opened Seqs
  import Profiles
  import Planner

  datatype Mode = ProjectMode | IssueMode

  /** What the lookup of an issue returns: its project, if it has one, and
      its subject. */
  datatype IssueDetails = IssueDetails(project: Option<Planner.ProjectOption>, subject: string)

  /** The profile form. An empty select is `None`, and so is an empty issue
      id field; any non-empty issue id text counts as entered. */
  datatype ProfileForm = ProfileForm(
    name: string,
    comment: string,
    project: Option<int>,
    activity: Option<int>,
    rdTeam: string,
    mode: Mode,
    issueInput: Option<int>)

  function ProjectHasId(id: int): Planner.ProjectOption -> bool {
    (p: Planner.ProjectOption) => p.id == id
  }

  /** The first project option with id `id` is at `k`. */
  predicate ProjectFirstAt(projects: seq<Planner.ProjectOption>, id: int, k: int) {
    FirstAt(projects, ProjectHasId(id), k)
  }

  /** `projects.find(p => p.id === id)`: the first option with the id. */
  function FindProject(projects: seq<Planner.ProjectOption>, id: int): (r: Option<Planner.ProjectOption>)
    ensures r.None? <==> forall j :: 0 <= j < |projects| ==> projects[j].id != id
    ensures r.Some? ==> exists k :: ProjectFirstAt(projects, id, k) && projects[k] == r.value
  {
    match FirstIndex(projects, ProjectHasId(id))
    case None => None
    case Some(k) =>
      assert ProjectFirstAt(projects, id, k);
      Some(projects[k])
  }

  /** The form is complete enough to save. */
  predicate Complete(f: ProfileForm) {
    && f.name != ""
    && IntTruthy(f.activity)
    && (f.mode == ProjectMode ==> IntTruthy(f.project))
    && (f.mode == IssueMode ==> f.issueInput.Some?)
  }

  /** `saveProfile`: the name is checked first, then the activity, then the
      project (project mode) or the issue id (issue mode). A saved profile
      always carries the name, the comment, the activity and the team. In
      project mode it names the selected project, no issue (0), and the
      name of the first option with that project's id, if there is one. In
      issue mode it names the entered issue, and takes the project and the
      issue's subject from the lookup when that found a project, project 0
      otherwise. */
  function SaveProfileForm(f: ProfileForm, projects: seq<Planner.ProjectOption>,
                           lookup: Option<IssueDetails>): (r: Result<Profiles.Profile>)
    ensures r.Ok? <==> Complete(f)
    ensures f.name == "" ==> r == Err("Please enter a profile name")
    ensures f.name != "" && !IntTruthy(f.activity) ==> r == Err("Please select an activity")
    ensures f.name != "" && IntTruthy(f.activity) && f.mode == ProjectMode && !IntTruthy(f.project) ==>
      r == Err("Please select a project")
    ensures f.name != "" && IntTruthy(f.activity) && f.mode == IssueMode && f.issueInput.None? ==>
      r == Err("Please enter an Issue ID")
    ensures r.Ok? ==>
      && r.value.name == f.name
      && r.value.comments == Some(f.comment)
      && r.value.activityId == f.activity.value
      && r.value.rdFunctionTeam == Some(f.rdTeam)
    ensures r.Ok? && f.mode == ProjectMode ==>
      && r.value.projectId == f.project.value
      && r.value.issueId == 0
      && r.value.issueName.None?
      && (r.value.projectName.Some? <==> exists j :: 0 <= j < |projects| && projects[j].id == f.project.value)
      && (forall k :: ProjectFirstAt(projects, f.project.value, k) ==> r.value.projectName == Some(projects[k].name))
    ensures r.Ok? && f.mode == IssueMode ==>
      && r.value.issueId == f.issueInput.value
      && (lookup.Some? && lookup.value.project.Some? ==>
            && r.value.projectId == lookup.value.project.value.id
            && r.value.projectName == Some(lookup.value.project.value.name)
            && r.value.issueName == Some(lookup.value.subject))
      && (!(lookup.Some? && lookup.value.project.Some?) ==>
            r.value.projectId == 0 && r.value.projectName.None? && r.value.issueName.None?)
  {
    if f.name == "" then Err("Please enter a profile name")
    else if !IntTruthy(f.activity) then Err("Please select an activity")
    else
      var base := Profiles.Profile(f.name, 0, 0, f.activity.value, Some(f.comment), Some(f.rdTeam), None, None);
      match f.mode
      case ProjectMode =>
        if !IntTruthy(f.project) then Err("Please select a project")
        else
          var name := match FindProject(projects, f.project.value)
            case Some(p) => Some(p.name)
            case None => None;
          Ok(base.(projectId := f.project.value, projectName := name))
      case IssueMode =>
        if f.issueInput.None? then Err("Please enter an Issue ID")
        else match lookup
          case Some(IssueDetails(Some(project), subject)) =>
            Ok(base.(issueId := f.issueInput.value, projectId := project.id,
                     projectName := Some(project.name), issueName := Some(subject)))
          case _ =>
            Ok(base.(issueId := f.issueInput.value))
  }

  /** `handleEditProfile`: fills the form from a profile, in issue mode with
      its issue id when that is positive, in project mode with its project
      otherwise. The other mode's field is left as it was. */
  function EditProfile(f: ProfileForm, p: Profiles.Profile): (r: ProfileForm)
    ensures r.mode == IssueMode <==> p.issueId > 0
    ensures r.mode == IssueMode ==> r.issueInput == Some(p.issueId) && r.project == f.project
    ensures r.mode == ProjectMode ==> r.project == Some(p.projectId) && r.issueInput == f.issueInput
    ensures r.name == p.name && r.activity == Some(p.activityId)
    ensures r.comment == p.comments.GetOr("")
    ensures r.rdTeam == StrOr(p.rdFunctionTeam, "N/A")
  {
    var filled := f.(name := p.name, comment := p.comments.GetOr(""), activity := Some(p.activityId),
                     rdTeam := StrOr(p.rdFunctionTeam, "N/A"));
    if p.issueId > 0 then filled.(mode := IssueMode, issueInput := Some(p.issueId))
    else filled.(mode := ProjectMode, project := Some(p.projectId))
  }

  /** A profile with its team and comment set and no issue, whose project
      name is what the options say, is saved back unchanged after editing. */
  lemma EditThenSaveProject(f: ProfileForm, p: Profiles.Profile, projects: seq<Planner.ProjectOption>,
                            lookup: Option<IssueDetails>)
    requires p.name != "" && p.activityId != 0 && p.projectId != 0 && p.issueId == 0
    requires p.comments.Some? && StrTruthy(p.rdFunctionTeam) && p.issueName.None?
    requires p.projectName == (match FindProject(projects, p.projectId) case Some(q) => Some(q.name) case None => None)
    ensures SaveProfileForm(EditProfile(f, p), projects, lookup) == Ok(p)
  {
  }

  /** A profile with an issue, whose project and issue name are what the
      lookup reports, is saved back unchanged after editing. */
  lemma EditThenSaveIssue(f: ProfileForm, p: Profiles.Profile, projects: seq<Planner.ProjectOption>,
                          project: Planner.ProjectOption, subject: string)
    requires p.name != "" && p.activityId != 0 && p.issueId > 0
    requires p.comments.Some? && StrTruthy(p.rdFunctionTeam)
    requires p.projectId == project.id && p.projectName == Some(project.name) && p.issueName == Some(subject)
    ensures SaveProfileForm(EditProfile(f, p), projects, Some(IssueDetails(Some(project), subject))) == Ok(p)
  {
  }

  /** A profile saved in project mode carries issue 0, so pressing the
      planner's add-task button right after selecting it sends nothing; the
      user has to pick an issue of the fetched project first. */
  lemma ProjectProfileAddsNothing(f: ProfileForm, projects: seq<Planner.ProjectOption>, lookup: Option<IssueDetails>,
                                  form: Planner.Form, options: seq<Planner.ProjectOption>,
                                  issues: seq<Planner.IssueOption>, today: Date, newId: string)
    requires Complete(f) && f.mode == ProjectMode
    ensures var p := SaveProfileForm(f, projects, lookup).value;
      var s := Planner.SelectProfile(Profiles.SaveProfile([], p), p.name, form, options, issues);
      Planner.AddTask(s.form, s.issues, today, newId).None?
  {
    var p := SaveProfileForm(f, projects, lookup).value;
    var stored := Profiles.SaveProfile([], p);
    assert stored == [p];
    assert stored[0].name == p.name;
    assert !Profiles.NoneNamed(stored, p.name);
    var s := Planner.SelectProfile(stored, p.name, form, options, issues);
    var k :| Profiles.FirstNamedAt(stored, p.name, k) && s.form.issueId == Some(stored[k].issueId);
  }
}
