/** A job of a stage: its attributes, its artifacts, tabs and tasks, and the
    order of its children that the GoCD server accepts.

    Resources and environment variables of a job are those of `Generic`.
 */
module Jobs {
  import opened Wrappers
  import opened Seqs
  import opened Xml
  import opened Artifacts
  import Tasks

  /** `Job.name` */
  function Name(e: Element): (r: Result<string>)
    ensures r.Ok? <==> "name" in e.attrs
    ensures r.Ok? ==> r.value == e.attrs["name"]
  {
    Required(e.attrs, "name")
  }

  // ---------------------------------------------------------------------------
  // Optional attributes: reading an absent one raises, `has_*` says whether it is there.

  /** `has_timeout`, `has_elastic_profile_id`. */
  predicate Has(e: Element, attr: string) {
    attr in e.attrs
  }

  /** `timeout`, `elastic_profile_id`: the attribute, or a RuntimeError when it is absent. */
  function Optional(e: Element, attr: string): (r: Result<string>)
    ensures r.Ok? <==> Has(e, attr)
    ensures r.Ok? ==> r.value == e.attrs[attr]
  {
    if Has(e, attr) then Ok(e.attrs[attr]) else Err("Job does not have " + attr)
  }

  function Timeout(e: Element): Result<string> {
    Optional(e, "timeout")
  }

  function ElasticProfileId(e: Element): Result<string> {
    Optional(e, "elasticProfileId")
  }

  /** `set_timeout`, `set_elastic_profile_id` */
  function SetOptional(e: Element, attr: string, value: string): (r: Element)
    ensures r.children == e.children && r.tag == e.tag
  {
    SetAttr(e, attr, value)
  }

  /** A value set is read back, and nothing else is touched. */
  lemma SetOptionalReads(e: Element, attr: string, value: string, other: string)
    requires other != attr
    ensures Optional(SetOptional(e, attr, value), attr) == Ok(value)
    ensures Has(SetOptional(e, attr, value), other) <==> Has(e, other)
    ensures Optional(SetOptional(e, attr, value), other) == Optional(e, other)
  {
  }

  /** `runs_on_all_agents`: true only when the attribute is literally "true". */
  predicate RunsOnAllAgents(e: Element) {
    Get(e.attrs, "runOnAllAgents").GetOr("false") == "true"
  }

  /** `set_runs_on_all_agents(flag)`: writes "true" or "false". */
  function SetRunsOnAllAgents(e: Element, flag: bool): (r: Element)
    ensures "runOnAllAgents" in r.attrs && r.attrs["runOnAllAgents"] in {"true", "false"}
    ensures RunsOnAllAgents(r) == flag
  {
    SetAttr(e, "runOnAllAgents", if flag then "true" else "false")
  }

  // ---------------------------------------------------------------------------
  // Artifacts

  /** Decoding every child of an `artifacts` element into a set. Building the set hashes
      each artifact through its text form, which raises for a type other than build or test. */
  function ArtifactsOf(cs: seq<Element>): (r: Result<set<Artifact>>)
    ensures r.Ok? ==> forall a :: a in r.value ==> a.artifactType in {"build", "test"}
  {
    var xs :- MapResult(cs, GetArtifactFor);
    if forall a :: a in xs ==> Constructor(a).Ok? then Ok(set a | a in xs)
    else Err("Unknown artifact type")
  }

  /** The set holds exactly the decoded children, and it exists exactly when every child
      has a `src` and a build or test type. */
  lemma {:induction false} ArtifactsOfReads(cs: seq<Element>)
    ensures ArtifactsOf(cs).Ok? <==>
      forall i :: 0 <= i < |cs| ==> GetArtifactFor(cs[i]).Ok? && GetArtifactFor(cs[i]).value.artifactType in {"build", "test"}
    ensures ArtifactsOf(cs).Ok? ==>
      forall a :: a in ArtifactsOf(cs).value <==> exists i :: 0 <= i < |cs| && GetArtifactFor(cs[i]) == Ok(a)
  {
    MapResultOk(cs, GetArtifactFor);
    if MapResult(cs, GetArtifactFor).Ok? {
      var xs := MapResult(cs, GetArtifactFor).value;
      assert forall a :: a in xs <==> exists i :: 0 <= i < |cs| && GetArtifactFor(cs[i]) == Ok(a) by {
        forall a | a in xs
          ensures exists i :: 0 <= i < |cs| && GetArtifactFor(cs[i]) == Ok(a)
        {
          var k :| 0 <= k < |xs| && xs[k] == a;
          assert GetArtifactFor(cs[k]) == Ok(a);
        }
      }
    }
  }

  /** `Job.artifacts`: every child of the first `artifacts` child. */
  function JobArtifacts(e: Element): Result<set<Artifact>> {
    ArtifactsOf(PossiblyMissingIterator(PossiblyMissingChild(Some(e), "artifacts")))
  }

  function EncodeBelow18Point3(a: Artifact): Element {
    Encode(a, false)
  }

  /** `ensure_artifacts(artifacts)`, with the set given in its iteration order: nothing at
      all for an empty set; otherwise the `artifacts` child is ensured and every artifact not
      already there is appended, in the encoding from before GoCD 18.3. A set has no
      repeats, so the sequence stands for one only when it lists each artifact once; a
      repeated artifact here would be appended once per occurrence, though the artifacts
      read back are the same set either way (`EnsureArtifactsReads`). */
  function EnsureArtifacts(e: Element, artifacts: seq<Artifact>): (r: Result<Element>)
    ensures |artifacts| == 0 ==> r == Ok(e)
    ensures |artifacts| > 0 ==> (r.Ok? <==> JobArtifacts(e).Ok?)
    ensures r.Ok? ==> r.value.tag == e.tag && r.value.attrs == e.attrs
  {
    if |artifacts| == 0 then Ok(e)
    else
      var existing :- JobArtifacts(e);
      var h := EnsureChild(e, "artifacts");
      var toAdd := Filter(artifacts, (a: Artifact) => a !in existing);
      Ok(Put(h, Child(h).(children := Child(h).children + Map(toAdd, EncodeBelow18Point3))))
  }

  /** Build and test artifacts decode back from the older encoding. */
  lemma {:induction false} ArtifactsOfEncoded(artifacts: seq<Artifact>)
    requires forall a :: a in artifacts ==> a.artifactType in {"build", "test"}
    ensures MapResult(Map(artifacts, EncodeBelow18Point3), GetArtifactFor) == Ok(artifacts)
  {
    forall a | a in artifacts
      ensures GetArtifactFor(EncodeBelow18Point3(a)) == Ok(a)
    {
      ArtifactRoundTrip(a, false);
    }
    MapResultOfMap(artifacts, EncodeBelow18Point3, GetArtifactFor);
  }

  /** After `ensure_artifacts` the job has exactly its old artifacts plus the given ones. */
  lemma {:induction false} EnsureArtifactsReads(e: Element, artifacts: seq<Artifact>)
    requires |artifacts| > 0 && JobArtifacts(e).Ok?
    requires forall a :: a in artifacts ==> a.artifactType in {"build", "test"}
    ensures EnsureArtifacts(e, artifacts).Ok?
    ensures JobArtifacts(EnsureArtifacts(e, artifacts).value) == Ok(JobArtifacts(e).value + set a | a in artifacts)
  {
    var existing := JobArtifacts(e).value;
    var h := EnsureChild(e, "artifacts");
    var p := (a: Artifact) => a !in existing;
    var toAdd := Filter(artifacts, p);
    var before := Child(h).children;
    var c := Child(h).(children := before + Map(toAdd, EncodeBelow18Point3));
    assert JobArtifacts(EnsureArtifacts(e, artifacts).value) == ArtifactsOf(c.children) by {
      EnsureChildPutFinds(e, "artifacts", c);
    }
    assert ArtifactsOf(before) == Ok(existing);
    assert ArtifactsOf(c.children) == Ok(existing + set a | a in toAdd) by {
      FilterMembers(artifacts, p);
      ArtifactsOfAppend(before, toAdd);
    }
    FilterNotInUnion(existing, artifacts, p);
  }

  /** Appending encoded build and test artifacts adds exactly them to the decoded set. */
  lemma {:induction false} ArtifactsOfAppend(before: seq<Element>, toAdd: seq<Artifact>)
    requires ArtifactsOf(before).Ok?
    requires forall a :: a in toAdd ==> a.artifactType in {"build", "test"}
    ensures ArtifactsOf(before + Map(toAdd, EncodeBelow18Point3)) == Ok(ArtifactsOf(before).value + set a | a in toAdd)
  {
    ArtifactsOfEncoded(toAdd);
    var xs := MapResult(before, GetArtifactFor).value;
    MapResultAppend(before, Map(toAdd, EncodeBelow18Point3), GetArtifactFor);
    assert MapResult(before + Map(toAdd, EncodeBelow18Point3), GetArtifactFor) == Ok(xs + toAdd);
    assert (set a | a in xs + toAdd) == (set a | a in xs) + set a | a in toAdd;
  }

  /** Once its artifacts are ensured, a second `ensure_artifacts` with them changes nothing. */
  lemma {:induction false} EnsureArtifactsIdempotent(e: Element, artifacts: seq<Artifact>)
    requires |artifacts| > 0 && JobArtifacts(e).Ok?
    requires forall a :: a in artifacts ==> a.artifactType in {"build", "test"}
    ensures EnsureArtifacts(e, artifacts).Ok?
    ensures EnsureArtifacts(EnsureArtifacts(e, artifacts).value, artifacts) == EnsureArtifacts(e, artifacts)
  {
    EnsureArtifactsReads(e, artifacts);
    EnsureArtifactsPresent(EnsureArtifacts(e, artifacts).value, artifacts);
  }

  /** Ensuring artifacts the job already has changes nothing. */
  lemma {:induction false} EnsureArtifactsPresent(e: Element, artifacts: seq<Artifact>)
    requires |artifacts| > 0 && JobArtifacts(e).Ok?
    requires forall a :: a in artifacts ==> a in JobArtifacts(e).value
    ensures EnsureArtifacts(e, artifacts) == Ok(e)
  {
    var existing := JobArtifacts(e).value;
    assert Find(e, "artifacts").Some? by {
      assert artifacts[0] in existing;
      assert ArtifactsOf([]).Ok? && artifacts[0] !in ArtifactsOf([]).value by {
        assert MapResult([], GetArtifactFor) == Ok([]);
      }
      assert Find(e, "artifacts").None? ==> JobArtifacts(e) == ArtifactsOf([]);
    }
    var h := EnsureChild(e, "artifacts");
    assert Filter(artifacts, (a: Artifact) => a !in existing) == [] by {
      FilterDropsAll(artifacts, (a: Artifact) => a !in existing);
    }
    assert Child(h).children + Map([], EncodeBelow18Point3) == Child(h).children;
    PutChild(h);
  }

  // ---------------------------------------------------------------------------
  // Tabs

  datatype Tab = Tab(name: string, path: string)

  /** `Tab.append_to`: `<tab name=… path=…/>` */
  function EncodeTab(t: Tab): (r: Element)
    ensures r.tag == "tab" && r.children == []
  {
    Element("tab", map["name" := t.name, "path" := t.path], None, [])
  }

  /** A `tab` element read back; a missing attribute raises. */
  function DecodeTab(e: Element): (r: Result<Tab>)
    ensures r.Ok? <==> "name" in e.attrs && "path" in e.attrs
  {
    var name :- Required(e.attrs, "name");
    var path :- Required(e.attrs, "path");
    Ok(Tab(name, path))
  }

  lemma TabRoundTrip(t: Tab)
    ensures DecodeTab(EncodeTab(t)) == Ok(t)
  {
  }

  /** `Job.tabs`: the `tab` children of the first `tabs` child. */
  function Tabs(e: Element): Result<seq<Tab>> {
    MapResult(PossiblyMissingFindAll(PossiblyMissingChild(Some(e), "tabs"), "tab"), DecodeTab)
  }

  /** `ensure_tab(tab)`: the `tabs` child is ensured, and the tab appended only when no equal tab is there. */
  function EnsureTab(e: Element, t: Tab): (r: Result<Element>)
    ensures r.Ok? <==> Tabs(EnsureChild(e, "tabs").parent).Ok?
    ensures r.Ok? ==> r.value.tag == e.tag && r.value.attrs == e.attrs
  {
    var h := EnsureChild(e, "tabs");
    var tabs :- MapResult(FindAll(Child(h), "tab"), DecodeTab);
    if t in tabs then Ok(h.parent) else Ok(Put(h, Append(Child(h), EncodeTab(t))))
  }

  /** Afterwards the tab is there once more only if it was missing: the list grows by
      it at the end, or stays as it was. */
  lemma {:induction false} EnsureTabReads(e: Element, t: Tab)
    requires EnsureTab(e, t).Ok?
    ensures var before := Tabs(EnsureChild(e, "tabs").parent).value;
      Tabs(EnsureTab(e, t).value) == Ok(if t in before then before else before + [t])
  {
    var h := EnsureChild(e, "tabs");
    var tabs := MapResult(FindAll(Child(h), "tab"), DecodeTab).value;
    EnsureChildIdempotent(e, "tabs");
    if t !in tabs {
      var c := Append(Child(h), EncodeTab(t));
      EnsureChildPutFinds(h.parent, "tabs", c);
      FindAllAppend(Child(h), EncodeTab(t), "tab");
      TabRoundTrip(t);
      MapResultSingle(EncodeTab(t), DecodeTab);
      MapResultAppend(FindAll(Child(h), "tab"), [EncodeTab(t)], DecodeTab);
    }
  }

  /** A second `ensure_tab` of the same tab changes nothing. */
  lemma {:induction false} EnsureTabIdempotent(e: Element, t: Tab)
    requires EnsureTab(e, t).Ok?
    ensures EnsureTab(EnsureTab(e, t).value, t) == EnsureTab(e, t)
  {
    EnsureTabReads(e, t);
    var r := EnsureTab(e, t).value;
    var h := EnsureChild(e, "tabs");
    if t !in Tabs(h.parent).value {
      EnsureChildPutFinds(h.parent, "tabs", Append(Child(h), EncodeTab(t)));
    }
    assert Find(r, "tabs").Some?;
  }

  // ---------------------------------------------------------------------------
  // Tasks

  /** `Job.tasks`: every child of the first `tasks` child, decoded. */
  function JobTasks(e: Element): Result<seq<Tasks.Task>> {
    MapResult(PossiblyMissingIterator(PossiblyMissingChild(Some(e), "tasks")), Tasks.Decode)
  }

  /** `add_task(task)`: always appends, and returns the decoded view of the new element. */
  function AddTask(e: Element, t: Tasks.Task): (r: Result<(Element, Tasks.Task)>)
    ensures r.Ok? <==> Tasks.Encode(t).Ok? && Tasks.Decode(Tasks.Encode(t).value).Ok?
  {
    Tasks.AppendTo(t, e)
  }

  /** `ensure_task(task)`: appends only when no equal task is there; otherwise returns the task given. */
  function EnsureTask(e: Element, t: Tasks.Task): (r: Result<(Element, Tasks.Task)>)
    ensures JobTasks(e).Ok? && t in JobTasks(e).value ==> r == Ok((e, t))
    ensures JobTasks(e).Ok? && t !in JobTasks(e).value ==> r == AddTask(e, t)
    ensures JobTasks(e).Err? ==> r.Err?
  {
    var tasks :- JobTasks(e);
    if t in tasks then Ok((e, t)) else AddTask(e, t)
  }

  /** Adding a task puts its decoded form last in the list, whatever is already there:
      a task added twice is there twice. */
  lemma {:induction false} AddTaskReads(e: Element, t: Tasks.Task)
    requires AddTask(e, t).Ok? && JobTasks(e).Ok?
    ensures JobTasks(AddTask(e, t).value.0) == Ok(JobTasks(e).value + [AddTask(e, t).value.1])
  {
    var enc := Tasks.Encode(t).value;
    var withOrigin := if t.FetchArtifactTask? && t.origin.Some? then SetAttr(e, "origin", t.origin.value) else e;
    assert withOrigin.children == e.children;
    assert Find(withOrigin, "tasks") == Find(e, "tasks");
    var h := EnsureChild(withOrigin, "tasks");
    EnsureChildPutFinds(withOrigin, "tasks", Append(Child(h), enc));
    var before := PossiblyMissingIterator(PossiblyMissingChild(Some(e), "tasks"));
    assert Child(h).children == before;
    MapResultSingle(enc, Tasks.Decode);
    MapResultAppend(before, [enc], Tasks.Decode);
  }

  /** For a task that reads back as itself, `ensure_task` twice is `ensure_task` once. */
  lemma {:induction false} EnsureTaskIdempotent(e: Element, t: Tasks.Task)
    requires JobTasks(e).Ok?
    requires Tasks.Encode(t).Ok? && Tasks.Decode(Tasks.Encode(t).value) == Ok(t)
    ensures var j := EnsureTask(e, t).value.0;
      EnsureTask(j, t) == Ok((j, t))
  {
    if t !in JobTasks(e).value {
      AddTaskReads(e, t);
    }
  }

  /** `without_any_tasks`: empties the first `tasks` child, when there is one. */
  function WithoutAnyTasks(e: Element): (r: Element)
    ensures JobTasks(r) == Ok([])
    ensures Find(r, "tasks").Some? <==> Find(e, "tasks").Some?
    ensures r.tag == e.tag && r.attrs == e.attrs
  {
    var f := (c: Element) => c.(children := []);
    if Find(e, "tasks").Some? then
      ModifyChildIsPut(e, "tasks", f);
      EnsureChildPutFinds(e, "tasks", f(Find(e, "tasks").value));
      ModifyChild(e, "tasks", f)
    else
      ModifyChild(e, "tasks", f)
  }

  // ---------------------------------------------------------------------------
  // Reordering

  /** The tags `reorder_elements_to_please_go` moves to the end of a job, in turn. The
      first is spelled with an underscore, so it never matches the `environmentvariables`
      child a job actually has. */
  const JobTags: seq<string> := ["environment_variables", "tasks", "tabs", "resources", "artifacts"]

  lemma JobTagsDistinct()
    ensures Distinct(JobTags)
  {
  }

  /** `Job.reorder_elements_to_please_go` */
  function Reorder(e: Element): (r: Element)
    ensures r.tag == e.tag && r.attrs == e.attrs && r.text == e.text
    ensures r.children == Grouped(e.children, JobTags)
    ensures multiset(r.children) == multiset(e.children)
  {
    JobTagsDistinct();
    MoveTagsToEndGroups(e.children, JobTags);
    MoveTagsToEndPermutes(e.children, JobTags);
    e.(children := MoveTagsToEnd(e.children, JobTags))
  }

  lemma {:induction false} ReorderIdempotent(e: Element)
    ensures Reorder(Reorder(e)) == Reorder(e)
  {
    JobTagsDistinct();
    MoveTagsToEndIdempotent(e.children, JobTags);
  }
}
