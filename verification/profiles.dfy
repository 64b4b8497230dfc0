/** The backend's profile list: named templates of time-entry metadata kept
    under the `profiles` key of the settings file. The list is passed in and
    returned instead of being read from and written to the file.
 */
module Profiles {
  import opened Common
  import opened Seqs

  /** A saved template, with the fields of the backend's `Profile` schema. */
  datatype Profile = Profile(
    name: string,
    projectId: int,
    issueId: int,
    activityId: int,
    comments: Option<string>,
    rdFunctionTeam: Option<string>,
    projectName: Option<string>,
    issueName: Option<string>)

  /** No profile in the list carries `name`. */
  predicate NoneNamed(profiles: seq<Profile>, name: string) {
    forall i :: 0 <= i < |profiles| ==> profiles[i].name != name
  }

  /** The filter that keeps the profiles not named `name`. */
  function NotNamed(name: string): Profile -> bool {
    (p: Profile) => p.name != name
  }

  /** The search that matches the profiles named `name`. */
  function Named(name: string): Profile -> bool {
    (p: Profile) => p.name == name
  }

  /** `k` is the position of the first profile named `name`. */
  predicate FirstNamedAt(profiles: seq<Profile>, name: string, k: int) {
    FirstAt(profiles, Named(name), k)
  }

  /** The first profile with the given name, as both the backend's
      `next(...)` and the planner's `profiles.find(...)` pick it. */
  function FindProfile(profiles: seq<Profile>, name: string): (r: Option<Profile>)
    ensures r.None? <==> NoneNamed(profiles, name)
    ensures r.Some? ==> exists k :: FirstNamedAt(profiles, name, k) && profiles[k] == r.value
  {
    match FirstIndex(profiles, Named(name))
    case None => None
    case Some(k) => Some(profiles[k])
  }

  /** `DELETE /api/profile?name=`: drops every profile with that name and
      keeps the rest in order; when nothing matched, the call is refused with
      "Profile not found" and the file is not written. */
  function DeleteProfile(profiles: seq<Profile>, name: string): (r: Result<seq<Profile>>)
    ensures r.Err? <==> NoneNamed(profiles, name)
    ensures r.Err? ==> r.msg == "Profile not found"
    ensures r.Ok? ==> NoneNamed(r.value, name) && |r.value| < |profiles|
    ensures r.Ok? ==> forall p :: p in r.value <==> p in profiles && p.name != name
    ensures r.Ok? ==> IsSubsequence(r.value, profiles)
    ensures r.Ok? ==> |r.value| + Count(profiles, Named(name)) == |profiles|
  {
    var kept := Filter(profiles, NotNamed(name));
    FilterCount(profiles, NotNamed(name), Named(name));
    FilterSameLength(profiles, NotNamed(name));
    FilterIsSubsequence(profiles, NotNamed(name));
    assert forall i :: 0 <= i < |kept| ==> kept[i] in kept;
    if |kept| == |profiles| then Err("Profile not found") else Ok(kept)
  }

  /** `POST /api/profiles`: an upsert by name. The first profile with the
      same name is overwritten in place (all of its schema fields), so the
      count is unchanged; otherwise the profile is appended at the end. */
  function SaveProfile(profiles: seq<Profile>, profile: Profile): (r: seq<Profile>)
    ensures NoneNamed(profiles, profile.name) ==> r == profiles + [profile]
    ensures !NoneNamed(profiles, profile.name) ==>
      |r| == |profiles| &&
      exists k :: FirstNamedAt(profiles, profile.name, k) && r == profiles[k := profile]
  {
    match FirstIndex(profiles, Named(profile.name))
    case None => profiles + [profile]
    case Some(k) =>
      assert FirstNamedAt(profiles, profile.name, k);
      profiles[k := profile]
  }

  /** After a save, looking the name up finds exactly the saved profile. */
  lemma SaveThenFind(profiles: seq<Profile>, profile: Profile)
    ensures FindProfile(SaveProfile(profiles, profile), profile.name) == Some(profile)
  {
    var r := SaveProfile(profiles, profile);
    if NoneNamed(profiles, profile.name) {
      assert FirstNamedAt(r, profile.name, |profiles|);
    } else {
      var k :| FirstNamedAt(profiles, profile.name, k) && r == profiles[k := profile];
      assert FirstNamedAt(r, profile.name, k);
    }
  }

  /** Saving the same profile twice is the same as saving it once. */
  lemma SaveIdempotent(profiles: seq<Profile>, profile: Profile)
    ensures SaveProfile(SaveProfile(profiles, profile), profile) == SaveProfile(profiles, profile)
  {
    var r := SaveProfile(profiles, profile);
    if NoneNamed(profiles, profile.name) {
      assert FirstNamedAt(r, profile.name, |profiles|);
      assert r[|profiles| := profile] == r;
    } else {
      var k :| FirstNamedAt(profiles, profile.name, k) && r == profiles[k := profile];
      assert FirstNamedAt(r, profile.name, k);
      assert r[k].name == profile.name;
      var k' :| FirstNamedAt(r, profile.name, k') && SaveProfile(r, profile) == r[k' := profile];
      assert FirstNamedAt(r, profile.name, k');
      assert FirstAt(r, Named(profile.name), k);
      assert FirstAt(r, Named(profile.name), k');
      FirstAtUnique(r, Named(profile.name), k, k');
    }
  }

  /** Deleting a freshly added name undoes the save. */
  lemma SaveThenDeleteRestores(profiles: seq<Profile>, profile: Profile)
    requires NoneNamed(profiles, profile.name)
    ensures DeleteProfile(SaveProfile(profiles, profile), profile.name) == Ok(profiles)
  {
    var keep := NotNamed(profile.name);
    assert SaveProfile(profiles, profile) == profiles + [profile];
    FilterConcat(profiles, [profile], keep);
    FilterKeepsAll(profiles, keep);
    assert [profile][1..] == [];
    assert Filter([profile], keep) == [];
    assert Filter(profiles + [profile], keep) == profiles;
  }
}
