/** A stage of a pipeline: its jobs, its flags, its manual approval and the order of
    its children. Environment variables of a stage are those of `Generic`. */
module Stages {
  import opened Wrappers
  import opened Seqs
  import opened Xml
  import Jobs

  /** `Stage.name` */
  function Name(e: Element): (r: Result<string>)
    ensures r.Ok? <==> "name" in e.attrs
    ensures r.Ok? ==> r.value == e.attrs["name"]
  {
    Required(e.attrs, "name")
  }

  /** `Stage.jobs`: the `job` children of the first `jobs` child. */
  function JobsOf(e: Element): (r: seq<Element>)
    ensures forall i :: 0 <= i < |r| ==> r[i].tag == "job"
  {
    PossiblyMissingFindAll(PossiblyMissingChild(Some(e), "jobs"), "job")
  }

  /** `ensure_job(name)`: find-or-create by name inside the `jobs` child; gives the new
      stage and the job. */
  function EnsureJob(e: Element, name: string): (r: Result<(Element, Element)>)
    ensures r.Ok? <==> AllCarry(Child(EnsureChild(e, "jobs")), "job", "name")
    ensures r.Ok? ==> r.value.1.tag == "job" && "name" in r.value.1.attrs && r.value.1.attrs["name"] == name
    ensures r.Ok? ==> r.value.0.attrs == e.attrs
  {
    EnsureKeyedIn(e, "jobs", "job", "name", name)
  }

  /** The job is among the stage's jobs afterwards, and a second call changes nothing. */
  lemma {:induction false} EnsureJobFindsAndIsIdempotent(e: Element, name: string)
    requires EnsureJob(e, name).Ok?
    ensures var (s, j) := EnsureJob(e, name).value;
      j in JobsOf(s) && EnsureJob(s, name) == EnsureJob(e, name)
  {
    EnsureKeyedInFinds(e, "jobs", "job", "name", name);
    EnsureKeyedInIdempotent(e, "jobs", "job", "name", name);
    var (s, j) := EnsureJob(e, name).value;
    FilterMembers(Find(s, "jobs").value.children, IsTag("job"));
  }

  /** No second job of the same name is ever created. */
  lemma {:induction false} EnsureJobNoDuplicate(e: Element, name: string)
    requires EnsureJob(e, name).Ok?
    ensures var s := EnsureJob(e, name).value.0;
      var p := HasAttrValue("job", "name", name);
      var before := |Filter(PossiblyMissingIterator(PossiblyMissingChild(Some(e), "jobs")), p)|;
      Find(s, "jobs").Some? && |Filter(Find(s, "jobs").value.children, p)| == if before == 0 then 1 else before
  {
    EnsureKeyedInNoDuplicate(e, "jobs", "job", "name", name);
  }

  // ---------------------------------------------------------------------------
  // Flags

  /** `clean_working_dir`: true only when the attribute is literally "true". */
  predicate CleanWorkingDir(e: Element) {
    PossiblyMissingHasAttribute(Some(e), "cleanWorkingDir", "true")
  }

  /** `set_clean_working_dir()` */
  function SetCleanWorkingDir(e: Element): (r: Element)
    ensures CleanWorkingDir(r)
    ensures r.children == e.children
    ensures forall k :: k in e.attrs && k != "cleanWorkingDir" ==> k in r.attrs && r.attrs[k] == e.attrs[k]
  {
    SetAttr(e, "cleanWorkingDir", "true")
  }

  /** `fetch_materials`: true unless the attribute is literally "false". */
  predicate FetchMaterials(e: Element) {
    !PossiblyMissingHasAttribute(Some(e), "fetchMaterials", "false")
  }

  /** `set_fetch_materials(value)`: true removes the attribute, false writes "false". */
  function SetFetchMaterials(e: Element, value: bool): (r: Element)
    ensures FetchMaterials(r) == value
    ensures value <==> "fetchMaterials" !in r.attrs
    ensures r.children == e.children
    ensures forall k :: k in e.attrs && k != "fetchMaterials" ==> k in r.attrs && r.attrs[k] == e.attrs[k]
  {
    if value then RemoveAttribute(Some(e), "fetchMaterials").value
    else SetAttr(e, "fetchMaterials", "false")
  }

  /** Setting the flag twice is setting it once, and the flag set last wins. */
  lemma SetFetchMaterialsLastWins(e: Element, a: bool, b: bool)
    ensures SetFetchMaterials(SetFetchMaterials(e, a), b).attrs == SetFetchMaterials(e, b).attrs
  {
  }

  // ---------------------------------------------------------------------------
  // Manual approval

  /** `has_manual_approval`: the first `approval` child has `type="manual"`. */
  predicate HasManualApproval(e: Element) {
    PossiblyMissingHasAttribute(PossiblyMissingChild(Some(e), "approval"), "type", "manual")
  }

  function ApprovalAuthorization(e: Element): Option<Element> {
    PossiblyMissingChild(PossiblyMissingChild(Some(e), "approval"), "authorization")
  }

  /** `authorized_users`: the texts of the `user` children of `approval/authorization`. */
  function AuthorizedUsers(e: Element): (r: seq<Option<string>>)
    ensures ApprovalAuthorization(e).None? ==> r == []
  {
    Map(PossiblyMissingFindAll(ApprovalAuthorization(e), "user"), TextOf)
  }

  /** `authorized_roles` */
  function AuthorizedRoles(e: Element): (r: seq<Option<string>>)
    ensures ApprovalAuthorization(e).None? ==> r == []
  {
    Map(PossiblyMissingFindAll(ApprovalAuthorization(e), "role"), TextOf)
  }

  function UserElement(u: string): Element {
    Parsed("user", u)
  }

  function RoleElement(r: string): Element {
    Parsed("role", r)
  }

  /** `set_has_manual_approval(users, roles)`: ensures an `approval type="manual"` child;
      when any users or roles are given, its `authorization` child is ensured, emptied,
      and filled with the users and then the roles. An `approval` child without a
      `type` attribute raises. */
  function SetHasManualApproval(e: Element, users: seq<string>, roles: seq<string>): (r: Result<Element>)
    ensures r.Ok? <==> EnsureChildWithAttribute(e, "approval", "type", "manual").Ok?
    ensures r.Ok? ==> r.value.attrs == e.attrs
  {
    var k :- EnsureChildWithAttribute(e, "approval", "type", "manual");
    if |users| == 0 && |roles| == 0 then Ok(k.parent)
    else
      var h := EnsureChild(Child(k), "authorization");
      var auth := Child(h).(children := Map(users, UserElement) + Map(roles, RoleElement));
      Ok(Put(k, Put(h, auth)))
  }

  /** The first `approval` child, if any, is a manual one. */
  predicate FirstApprovalManual(e: Element) {
    Find(e, "approval").None? || HasAttrValue("approval", "type", "manual")(Find(e, "approval").value)
  }

  lemma TextsOfParsed(tag: string, s: seq<string>, mk: string -> Element)
    requires forall x :: mk(x) == Parsed(tag, x)
    ensures Map(Map(s, mk), TextOf) == Map(s, ParsedText)
  {
  }

  lemma {:induction false} FilterParsed(users: seq<string>, roles: seq<string>)
    ensures Filter(Map(users, UserElement) + Map(roles, RoleElement), IsTag("user")) == Map(users, UserElement)
    ensures Filter(Map(users, UserElement) + Map(roles, RoleElement), IsTag("role")) == Map(roles, RoleElement)
  {
    FilterAppend(Map(users, UserElement), Map(roles, RoleElement), IsTag("user"));
    FilterAppend(Map(users, UserElement), Map(roles, RoleElement), IsTag("role"));
    FilterKeepsAll(Map(users, UserElement), IsTag("user"));
    FilterDropsAll(Map(roles, RoleElement), IsTag("user"));
    FilterDropsAll(Map(users, UserElement), IsTag("role"));
    FilterKeepsAll(Map(roles, RoleElement), IsTag("role"));
  }

  /** Afterwards the stage has manual approval, and when users or roles were given
      they are exactly the authorised users and roles, in the given order. */
  lemma {:induction false} SetHasManualApprovalReads(e: Element, users: seq<string>, roles: seq<string>)
    requires SetHasManualApproval(e, users, roles).Ok?
    requires FirstApprovalManual(e)
    ensures HasManualApproval(SetHasManualApproval(e, users, roles).value)
    ensures |users| > 0 || |roles| > 0 ==>
      && AuthorizedUsers(SetHasManualApproval(e, users, roles).value) == Map(users, ParsedText)
      && AuthorizedRoles(SetHasManualApproval(e, users, roles).value) == Map(roles, ParsedText)
  {
    var k := EnsureChildWithAttribute(e, "approval", "type", "manual").value;
    if |users| == 0 && |roles| == 0 {
      EnsureChildWithAttributePutFinds(e, "approval", "type", "manual", Child(k));
      PutChild(k);
    } else {
      var h := EnsureChild(Child(k), "authorization");
      var cs := Map(users, UserElement) + Map(roles, RoleElement);
      var auth := Child(h).(children := cs);
      var approval := Put(h, auth);
      EnsureChildWithAttributePutFinds(e, "approval", "type", "manual", approval);
      EnsureChildPutFinds(Child(k), "authorization", auth);
      FilterParsed(users, roles);
      TextsOfParsed("user", users, UserElement);
      TextsOfParsed("role", roles, RoleElement);
    }
  }

  // ---------------------------------------------------------------------------
  // Reordering

  /** The tags `Stage.reorder_elements_to_please_go` moves to the end, in turn. */
  const StageTags: seq<string> := ["environmentvariables", "jobs"]

  /** Every `job` child of a `jobs` element reordered; other children untouched. */
  function ReorderJobChild(c: Element): Element {
    if c.tag == "job" then Jobs.Reorder(c) else c
  }

  function ReorderJobs(jobs: Element): (r: Element)
    ensures r.tag == jobs.tag
  {
    jobs.(children := Map(jobs.children, ReorderJobChild))
  }

  /** `Stage.reorder_elements_to_please_go`: environment variables, then jobs, go last;
      then every job of the first `jobs` child is reordered. */
  function Reorder(e: Element): (r: Element)
    ensures r.tag == e.tag && r.attrs == e.attrs && r.text == e.text
  {
    e.(children := ModifyFirst(MoveTagsToEnd(e.children, StageTags), IsTag("jobs"), ReorderJobs))
  }

  lemma {:induction false} ReorderJobsIdempotent(jobs: Element)
    ensures ReorderJobs(ReorderJobs(jobs)) == ReorderJobs(jobs)
  {
    forall c | c in jobs.children
      ensures ReorderJobChild(ReorderJobChild(c)) == ReorderJobChild(c)
    {
      if c.tag == "job" {
        Jobs.ReorderIdempotent(c);
      }
    }
    MapIdempotent(jobs.children, ReorderJobChild);
  }

  /** Children other than `jobs` ones end in grouped order. */
  lemma {:induction false} ReorderGroupsOthers(e: Element)
    ensures Filter(Reorder(e).children, Not(IsTag("jobs"))) == Filter(Grouped(e.children, StageTags), Not(IsTag("jobs")))
  {
    var moved := MoveTagsToEnd(e.children, StageTags);
    MoveTagsToEndGroups(e.children, StageTags);
    FilterModifyFirstOut(moved, IsTag("jobs"), ReorderJobs, Not(IsTag("jobs")));
  }

  /** Every job of a reordered `jobs` element has its children in the order a job needs. */
  lemma {:induction false} ReorderJobsGroups(jobs: Element)
    ensures forall c :: c in FindAll(ReorderJobs(jobs), "job") ==> c.children == Grouped(c.children, Jobs.JobTags)
  {
    var r := ReorderJobs(jobs);
    FilterMembers(r.children, IsTag("job"));
    Jobs.JobTagsDistinct();
    forall c | c in FindAll(r, "job")
      ensures c.children == Grouped(c.children, Jobs.JobTags)
    {
      var k :| 0 <= k < |jobs.children| && c == ReorderJobChild(jobs.children[k]);
      GroupedIdempotent(jobs.children[k].children, Jobs.JobTags);
    }
  }

  /** Every job of the stage ends with its children in the order a job needs. */
  lemma {:induction false} ReorderGroupsJobs(e: Element)
    ensures forall c :: c in JobsOf(Reorder(e)) ==> c.children == Grouped(c.children, Jobs.JobTags)
  {
    var moved := e.(children := MoveTagsToEnd(e.children, StageTags));
    FindModifyFirst(moved, "jobs", ReorderJobs);
    if Find(moved, "jobs").Some? {
      ReorderJobsGroups(Find(moved, "jobs").value);
    }
  }

  /** Reordering twice is reordering once. */
  lemma {:induction false} ReorderIdempotent(e: Element)
    ensures Reorder(Reorder(e)) == Reorder(e)
  {
    var moved := MoveTagsToEnd(e.children, StageTags);
    assert Distinct(StageTags);
    assert KeepsTag(moved, "jobs", ReorderJobs);
    MoveTagsToEndModifyFirst(moved, StageTags, "jobs", ReorderJobs);
    MoveTagsToEndIdempotent(e.children, StageTags);
    forall x | x in moved && IsTag("jobs")(x)
      ensures IsTag("jobs")(ReorderJobs(x)) && ReorderJobs(ReorderJobs(x)) == ReorderJobs(x)
    {
      ReorderJobsIdempotent(x);
    }
    ModifyFirstIdempotent(moved, IsTag("jobs"), ReorderJobs);
  }
}
