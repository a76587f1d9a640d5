/** Job tasks: the `Task` decoder dispatching on the element tag, `runif_from`,
    the `runif` validation every task constructor performs, and the `append_to`
    encoders of exec, fetch-artifact and rake tasks.
 */
module Tasks {
  import opened Wrappers
  import opened Strings
  import opened Seqs
  import opened Xml
  import opened Artifacts

  datatype Task =
    | ExecTask(commandAndArgs: seq<string>, workingDir: Option<string>, runif: string)
    | FetchArtifactTask(pipeline: string, stage: string, job: string, src: FetchSrc,
                        dest: Option<string>, runif: string, origin: Option<string>)
    | RakeTask(target: string, runif: string)

  predicate ValidRunIf(runif: string) {
    runif in {"passed", "failed", "any"}
  }

  /** The message `AbstractTask.__init__` raises for a bad `runif`. */
  function RunIfMessage(runif: string): string {
    "Cannot create task with runif=\"" + runif + "\" - it must be one of ['passed', 'failed', 'any']"
  }

  /** `AbstractTask.__init__`: every task constructor rejects a `runif` outside passed, failed and any. */
  function Checked(t: Task): (r: Result<Task>)
    ensures r.Ok? <==> ValidRunIf(t.runif)
    ensures r.Ok? ==> r.value == t
    ensures r.Err? ==> Contains(r.msg, t.runif)
  {
    if ValidRunIf(t.runif) then Ok(t)
    else
      ContainsInfix("Cannot create task with runif=\"", t.runif,
                    "\" - it must be one of ['passed', 'failed', 'any']");
      Err(RunIfMessage(t.runif))
  }

  /** The `status` attribute of each `runif` element; one without it raises KeyError. */
  function Statuses(rs: seq<Element>): (r: Result<seq<string>>)
    ensures r.Ok? <==> forall i :: 0 <= i < |rs| ==> "status" in rs[i].attrs
    ensures r.Ok? ==> |r.value| == |rs| && forall i :: 0 <= i < |rs| ==> r.value[i] == rs[i].attrs["status"]
  {
    if |rs| == 0 then Ok([])
    else if "status" !in rs[0].attrs then Err("KeyError: status")
    else
      var rest :- Statuses(rs[1..]);
      Ok([rs[0].attrs["status"]] + rest)
  }

  /** `runif_from(element)`: no `runif` child means passed, one child gives its status,
      a pair made of passed and failed means any, and anything else raises. */
  function RunIfFrom(e: Element): (r: Result<string>)
    ensures var ss := Statuses(FindAll(e, "runif"));
      && (r.Ok? <==> ss.Ok? && (|ss.value| <= 1 || (|ss.value| == 2 && multiset(ss.value) == multiset{"passed", "failed"})))
      && (r.Ok? && |ss.value| == 0 ==> r.value == "passed")
      && (r.Ok? && |ss.value| == 1 ==> r.value == ss.value[0])
      && (r.Ok? && |ss.value| == 2 ==> r.value == "any")
  {
    var statuses :- Statuses(FindAll(e, "runif"));
    PairIsPassedAndFailed(statuses);
    if |statuses| == 0 then Ok("passed")
    else if |statuses| == 1 then Ok(statuses[0])
    else if |statuses| == 2 && "passed" in statuses && "failed" in statuses then Ok("any")
    else Err("Don't know what multiple runif values means")
  }

  /** Two statuses that include both passed and failed are exactly that pair, in either order. */
  lemma {:induction false} PairIsPassedAndFailed(s: seq<string>)
    ensures |s| == 2 ==> ("passed" in s && "failed" in s <==> multiset(s) == multiset{"passed", "failed"})
  {
    if |s| == 2 {
      assert s == [s[0], s[1]];
      assert multiset(s) == multiset{s[0], s[1]};
      if multiset(s) == multiset{"passed", "failed"} {
        assert s[0] in multiset(s) && s[1] in multiset(s);
        assert "passed" in multiset(s) && "failed" in multiset(s);
      }
    }
  }

  function RunIfElement(runif: string): Element {
    Element("runif", map["status" := runif], None, [])
  }

  /** The `<arg>` children of an exec element, one per argument, holding the argument as text. */
  function ArgElements(args: seq<string>): (r: seq<Element>)
    ensures |r| == |args|
    ensures forall i :: 0 <= i < |r| ==> r[i] == Parsed("arg", args[i])
  {
    if |args| == 0 then [] else [Parsed("arg", args[0])] + ArgElements(args[1..])
  }

  /** The element an `append_to` builds, before it goes into the `tasks` element.
      Only an exec task without a command has nothing to put in `command` and raises. */
  function Encode(t: Task): (r: Result<Element>)
    ensures r.Err? <==> t.ExecTask? && |t.commandAndArgs| == 0
    ensures r.Ok? && t.ExecTask? ==> (r.value.tag == "exec" && Get(r.value.attrs, "command") == Some(t.commandAndArgs[0])
                                       && ("workingdir" in r.value.attrs <==> t.workingDir.Some?))
    ensures r.Ok? && t.FetchArtifactTask? ==> (r.value.tag == "fetchartifact" && "origin" !in r.value.attrs
                                               && ("dest" in r.value.attrs <==> t.dest.Some?))
    ensures r.Ok? && t.RakeTask? ==> r.value == Element("rake", map["target" := t.target], None, [])
  {
    match t
    case ExecTask(cmd, wd, runif) =>
      if |cmd| == 0 then Err("IndexError: list index out of range")
      else
        var attrs := map["command" := cmd[0]];
        Ok(Element("exec", if wd.Some? then attrs["workingdir" := wd.value] else attrs, None,
                   ArgElements(cmd[1..]) + [RunIfElement(runif)]))
    case FetchArtifactTask(p, s, j, src, dest, runif, _) =>
      var attrs := map["pipeline" := p, "stage" := s, "job" := j][XmlTypeAndValue(src).0 := src.srcValue];
      Ok(Element("fetchartifact", if dest.Some? then attrs["dest" := dest.value] else attrs, None, [RunIfElement(runif)]))
    case RakeTask(target, _) =>
      Ok(Element("rake", map["target" := target], None, []))
  }

  /** `[e.text for e in element.findall('arg')]` as written: an empty argument
      was parsed as no text, so it reads back as None. */
  function ArgTextsAsWritten(e: Element): (r: seq<Option<string>>)
    ensures |r| == |FindAll(e, "arg")|
    ensures forall i :: 0 <= i < |r| ==> r[i] == FindAll(e, "arg")[i].text
  {
    Map(FindAll(e, "arg"), (c: Element) => c.text)
  }

  /** The argument an empty `arg` element stands for is the empty string. */
  function ArgTexts(e: Element): (r: seq<string>)
    ensures |r| == |FindAll(e, "arg")|
    ensures forall i :: 0 <= i < |r| ==> Some(r[i]) == FindAll(e, "arg")[i].text || (r[i] == "" && FindAll(e, "arg")[i].text.None?)
  {
    Map(FindAll(e, "arg"), (c: Element) => c.text.GetOr(""))
  }

  /** `ExecTask(["echo", ""])` comes back as written with None in place of the empty argument. */
  lemma {:induction false} EmptyArgumentReadsAsNone()
    ensures var e := Encode(ExecTask(["echo", ""], None, "passed")).value;
      ArgTextsAsWritten(e) == [None] && ArgTexts(e) == [""]
  {
    var e := Encode(ExecTask(["echo", ""], None, "passed")).value;
    assert e.children == [Element("arg", map[], None, []), RunIfElement("passed")];
    assert FindAll(e, "arg") == [Element("arg", map[], None, [])];
  }

  /** `Task(element)`: runif first, then dispatch on the tag; an unknown tag,
      a missing attribute or an invalid runif raises. A rake task ignores the
      runif of its element. */
  function Decode(e: Element): (r: Result<Task>)
    ensures r.Ok? ==> e.tag in {"exec", "fetchartifact", "rake"} && RunIfFrom(e).Ok?
    ensures e.tag !in {"exec", "fetchartifact", "rake"} ==> r.Err?
    ensures r.Ok? && e.tag == "exec" ==> ("command" in e.attrs && r.value.ExecTask?
                                          && r.value.commandAndArgs == [e.attrs["command"]] + ArgTexts(e)
                                          && r.value.runif == RunIfFrom(e).value)
    ensures r.Ok? && e.tag == "fetchartifact" ==> (r.value.FetchArtifactTask? && r.value.runif == RunIfFrom(e).value
                                                   && r.value.origin == Get(e.attrs, "origin") && r.value.dest == Get(e.attrs, "dest"))
    ensures r.Ok? && e.tag == "rake" ==> "target" in e.attrs && r.value == RakeTask(e.attrs["target"], "passed")
    ensures r.Ok? ==> ValidRunIf(r.value.runif)
  {
    var runif :- RunIfFrom(e);
    if e.tag == "exec" then
      var command :- Required(e.attrs, "command");
      Checked(ExecTask([command] + ArgTexts(e), Get(e.attrs, "workingdir"), runif))
    else if e.tag == "fetchartifact" then
      var p :- Required(e.attrs, "pipeline");
      var s :- Required(e.attrs, "stage");
      var j :- Required(e.attrs, "job");
      var src :- FetchArtifactSrcFrom(e);
      Checked(FetchArtifactTask(p, s, j, src, Get(e.attrs, "dest"), runif, Get(e.attrs, "origin")))
    else if e.tag == "rake" then
      var target :- Required(e.attrs, "target");
      Ok(RakeTask(target, "passed"))
    else
      Err("Don't know task type " + e.tag)
  }

  lemma {:induction false} RunIfOfEncoded(t: Task, e: Element)
    requires !t.RakeTask?
    requires Encode(t) == Ok(e)
    ensures RunIfFrom(e) == Ok(t.runif)
  {
    var rs := FindAll(e, "runif");
    if t.ExecTask? {
      var args := ArgElements(t.commandAndArgs[1..]);
      FilterAppend(args, [RunIfElement(t.runif)], IsTag("runif"));
      FilterDropsAll(args, IsTag("runif"));
    }
    assert rs == [RunIfElement(t.runif)];
  }

  lemma {:induction false} ArgTextsOfEncoded(args: seq<string>, rest: seq<Element>)
    requires forall c :: c in rest ==> c.tag != "arg"
    ensures ArgTexts(Element("exec", map[], None, ArgElements(args) + rest)) == args
  {
    var cs := ArgElements(args) + rest;
    FilterAppend(ArgElements(args), rest, IsTag("arg"));
    FilterKeepsAll(ArgElements(args), IsTag("arg"));
    FilterDropsAll(rest, IsTag("arg"));
    var e := Element("exec", map[], None, cs);
    assert FindAll(e, "arg") == ArgElements(args);
  }

  /** As written, the arguments of an encoded exec task read back as their parsed texts:
      each non-empty argument as itself, each empty one as None. */
  lemma {:induction false} ArgTextsAsWrittenOfEncoded(t: Task)
    requires t.ExecTask? && |t.commandAndArgs| > 0
    ensures ArgTextsAsWritten(Encode(t).value) == Map(t.commandAndArgs[1..], ParsedText)
  {
    var args := t.commandAndArgs[1..];
    var e := Encode(t).value;
    var rest := [RunIfElement(t.runif)];
    FilterAppend(ArgElements(args), rest, IsTag("arg"));
    FilterKeepsAll(ArgElements(args), IsTag("arg"));
    FilterDropsAll(rest, IsTag("arg"));
    assert FindAll(e, "arg") == ArgElements(args);
  }

  /** Where every `arg` child has text, the corrected read is the as-written one. */
  lemma {:induction false} ArgTextsAgree(e: Element)
    requires forall c :: c in FindAll(e, "arg") ==> c.text.Some?
    ensures ArgTextsAsWritten(e) == Map(ArgTexts(e), (s: string) => Some(s))
  {
    var cs := FindAll(e, "arg");
    forall i | 0 <= i < |cs|
      ensures ArgTextsAsWritten(e)[i] == Some(ArgTexts(e)[i])
    {
      assert cs[i] in cs;
    }
  }

  /** An exec task comes back with its command, arguments, working directory and runif. */
  lemma {:induction false} ExecTaskRoundTrip(t: Task)
    requires t.ExecTask? && |t.commandAndArgs| > 0 && ValidRunIf(t.runif)
    ensures Decode(Encode(t).value) == Ok(t)
  {
    var e := Encode(t).value;
    RunIfOfEncoded(t, e);
    ArgTextsOfEncoded(t.commandAndArgs[1..], [RunIfElement(t.runif)]);
    assert ArgTexts(e) == ArgTexts(Element("exec", map[], None, e.children));
    assert [t.commandAndArgs[0]] + t.commandAndArgs[1..] == t.commandAndArgs;
  }

  /** A fetch-artifact task without origin comes back equal; the origin is never on the task element. */
  lemma {:induction false} FetchArtifactTaskRoundTrip(t: Task)
    requires t.FetchArtifactTask? && ValidRunIf(t.runif)
    ensures Decode(Encode(t).value) == Ok(t.(origin := None))
  {
    var e := Encode(t).value;
    RunIfOfEncoded(t, e);
    assert FetchArtifactSrcFrom(e) == Ok(t.src);
  }

  /** A rake task keeps only its target; whatever its runif, it comes back as passed. */
  lemma {:induction false} RakeTaskRoundTrip(t: Task)
    requires t.RakeTask?
    ensures Decode(Encode(t).value) == Ok(RakeTask(t.target, "passed"))
  {
    var e := Encode(t).value;
    assert FindAll(e, "runif") == [];
  }

  /** `task.append_to(job_element)`: a fetch-artifact task with an origin sets it on the job element
      itself; then the `tasks` child is found or created and the new task goes last in it.
      The result is the updated job element and the decoded view of the new task. */
  function AppendTo(t: Task, job: Element): (r: Result<(Element, Task)>)
    ensures r.Err? <==> Encode(t).Err? || Decode(Encode(t).value).Err?
    ensures r.Ok? ==>
      var withOrigin := if t.FetchArtifactTask? && t.origin.Some? then SetAttr(job, "origin", t.origin.value) else job;
      var h := EnsureChild(withOrigin, "tasks");
      r.value.0 == Put(h, Append(Child(h), Encode(t).value)) && Decode(Encode(t).value) == Ok(r.value.1)
  {
    var e :- Encode(t);
    var withOrigin := if t.FetchArtifactTask? && t.origin.Some? then SetAttr(job, "origin", t.origin.value) else job;
    var h := EnsureChild(withOrigin, "tasks");
    var view :- Decode(e);
    Ok((Put(h, Append(Child(h), e)), view))
  }

  /** Appending creates the `tasks` element only when it is missing and always puts the task last in it. */
  lemma {:induction false} AppendToPutsTaskLast(t: Task, job: Element)
    requires AppendTo(t, job).Ok?
    requires !(t.FetchArtifactTask? && t.origin.Some?)
    ensures var j := AppendTo(t, job).value.0;
      && |FindAll(j, "tasks")| == (if Find(job, "tasks").None? then 1 else |FindAll(job, "tasks")|)
      && Find(j, "tasks").Some?
      && Find(j, "tasks").value.children
         == (if Find(job, "tasks").None? then [] else Find(job, "tasks").value.children) + [Encode(t).value]
  {
    var h := EnsureChild(job, "tasks");
    EnsureChildPutFinds(job, "tasks", Append(Child(h), Encode(t).value));
  }
}
