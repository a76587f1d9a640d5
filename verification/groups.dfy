/** A `pipelines` element of the cruise config: a pipeline group, named by its `group`
    attribute, holding an optional `authorization` and its `pipeline` children. */
module Groups {
  import opened Wrappers
  import opened Seqs
  import opened Xml
  import Pipelines
  import Authorization

  /** `PipelineGroup.name`: raises KeyError when the `group` attribute is missing. */
  function Name(g: Element): (r: Result<string>)
    ensures r.Ok? <==> "group" in g.attrs
    ensures r.Ok? ==> r.value == g.attrs["group"]
  {
    Required(g.attrs, "group")
  }

  /** `authorization`: the first `authorization` child, possibly absent. */
  function AuthorizationOf(g: Element): (r: Option<Element>)
    ensures r.Some? <==> FindAll(g, "authorization") != []
    ensures r.Some? ==> r.value.tag == "authorization"
  {
    FindIsFirstOfFindAll(g, "authorization");
    Find(g, "authorization")
  }

  /** `pipelines`: the `pipeline` children in document order. */
  function PipelinesOf(g: Element): seq<Element> {
    FindAll(g, "pipeline")
  }

  function IsPipelineNamed(name: string): Element -> bool {
    HasAttrValue("pipeline", "name", name)
  }

  /** `_matching_pipelines(name)`: every pipeline with that name, in order. Reading the
      name of a pipeline without one raises KeyError. */
  function Matching(g: Element, name: string): (r: Result<seq<Element>>)
    ensures r.Ok? <==> AllCarry(g, "pipeline", "name")
    ensures r.Ok? ==> forall p :: p in r.value <==> p in PipelinesOf(g) && Pipelines.Name(p) == Ok(name)
  {
    if !AllCarry(g, "pipeline", "name") then Err("KeyError: name")
    else
      var m := Filter(PipelinesOf(g), IsPipelineNamed(name));
      FilterMembers(PipelinesOf(g), IsPipelineNamed(name));
      FilterMembers(g.children, IsTag("pipeline"));
      Ok(m)
  }

  /** The matching pipelines are the children that are pipelines with that name. */
  lemma {:induction false} MatchingIsFilter(g: Element, name: string)
    requires AllCarry(g, "pipeline", "name")
    ensures Matching(g, name) == Ok(Filter(g.children, IsPipelineNamed(name)))
  {
    FilterFilter(g.children, IsTag("pipeline"), IsPipelineNamed(name), IsPipelineNamed(name));
  }

  /** `has_pipeline(name)` */
  function HasPipeline(g: Element, name: string): (r: Result<bool>)
    ensures r.Ok? <==> AllCarry(g, "pipeline", "name")
    ensures r.Ok? ==> (r.value <==> exists p :: p in PipelinesOf(g) && Pipelines.Name(p) == Ok(name))
  {
    var m :- Matching(g, name);
    if |m| > 0 then assert m[0] in m; Ok(true) else Ok(false)
  }

  /** The start of the message `find_pipeline` raises when nothing matches. */
  const NotFoundPrefix: string := "RuntimeError: Cannot find pipeline with name \""

  /** `find_pipeline(name)`: the first pipeline with that name; when there is none the
      error names the pipeline that was asked for. */
  function FindPipeline(g: Element, name: string): (r: Result<Element>)
    ensures r.Ok? <==> AllCarry(g, "pipeline", "name") && FirstIndex(g.children, IsPipelineNamed(name)).Some?
    ensures r.Ok? ==> r.value == g.children[FirstIndex(g.children, IsPipelineNamed(name)).value]
    ensures r.Err? && AllCarry(g, "pipeline", "name") ==>
      |r.msg| >= |NotFoundPrefix| + |name| && r.msg[..|NotFoundPrefix|] == NotFoundPrefix
      && r.msg[|NotFoundPrefix|..|NotFoundPrefix| + |name|] == name
  {
    var m :- Matching(g, name);
    MatchingIsFilter(g, name);
    FirstIndexIsFilterHead(g.children, IsPipelineNamed(name));
    if |m| > 0 then Ok(m[0])
    else
      var msg := NotFoundPrefix + name + "\" in group";
      assert msg[..|NotFoundPrefix|] == NotFoundPrefix;
      assert msg[|NotFoundPrefix|..|NotFoundPrefix| + |name|] == name;
      Err(msg)
  }

  /** `ensure_authorization()`: find-or-create the authorization; gives the new group
      element and the authorization element. `Xml.EnsureFoundIdempotent`: a second call
      changes nothing. */
  function EnsureAuthorization(g: Element): (r: (Element, Element))
    ensures AuthorizationOf(r.0) == Some(r.1)
    ensures PipelinesOf(r.0) == PipelinesOf(g)
    ensures r.0.tag == g.tag && r.0.attrs == g.attrs
  {
    EnsureFound(g, "authorization")
  }

  /** `ensure_replacement_of_authorization()`: the authorization is there and empty, so
      none of its sections can be read; the pipelines are untouched. */
  function EnsureReplacementOfAuthorization(g: Element): (r: (Element, Element))
    ensures AuthorizationOf(r.0) == Some(r.1) && r.1.children == []
    ensures forall s :: Authorization.Section(r.1, s).None?
    ensures PipelinesOf(r.0) == PipelinesOf(g)
    ensures r.0.tag == g.tag && r.0.attrs == g.attrs
  {
    var r := EnsureEmptyChild(g, "authorization");
    assert r.1 == Authorization.MakeEmpty(r.1);
    r
  }

  /** `ensure_pipeline(name)`: the first pipeline with that name, or a new one carrying
      just the name; gives the new group element and the pipeline. */
  function EnsurePipeline(g: Element, name: string): (r: Result<(Element, Element)>)
    ensures r.Ok? <==> AllCarry(g, "pipeline", "name")
    ensures r.Ok? ==> Pipelines.Name(r.value.1) == Ok(name) && r.value.1.tag == "pipeline"
    ensures r.Ok? ==> r.value.0.tag == g.tag && r.value.0.attrs == g.attrs
  {
    var k :- EnsureChildWithAttribute(g, "pipeline", "name", name);
    Ok((k.parent, Child(k)))
  }

  /** After `ensure_pipeline`, `find_pipeline` gives the pipeline it gave, and the number
      of pipelines with that name is one if there was none and unchanged otherwise. */
  lemma {:induction false} EnsurePipelineFinds(g: Element, name: string)
    requires EnsurePipeline(g, name).Ok?
    ensures var (g1, p) := EnsurePipeline(g, name).value;
      var before := |Filter(g.children, IsPipelineNamed(name))|;
      && FindPipeline(g1, name) == Ok(p)
      && |Filter(g1.children, IsPipelineNamed(name))| == if before == 0 then 1 else before
  {
    var k := EnsureChildWithAttribute(g, "pipeline", "name", name).value;
    EnsureChildWithAttributeIdempotent(g, "pipeline", "name", name);
    EnsureChildWithAttributeNoDuplicate(g, "pipeline", "name", name);
    var q := IsPipelineNamed(name);
    if FirstIndex(g.children, q).None? {
      assert forall j :: 0 <= j < k.index ==> k.parent.children[j] == g.children[j];
    }
    FirstIndexIs(k.parent.children, q, k.index);
  }

  /** A second `ensure_pipeline` finds the first one's and changes nothing. */
  lemma {:induction false} EnsurePipelineIdempotent(g: Element, name: string)
    requires EnsurePipeline(g, name).Ok?
    ensures EnsurePipeline(EnsurePipeline(g, name).value.0, name) == EnsurePipeline(g, name)
  {
    EnsureChildWithAttributeIdempotent(g, "pipeline", "name", name);
  }

  /** `ensure_removal_of_pipeline(name)`: every pipeline with that name goes. */
  function EnsureRemovalOfPipeline(g: Element, name: string): (r: Result<Element>)
    ensures r.Ok? <==> AllCarry(g, "pipeline", "name")
    ensures r.Ok? ==> r.value.tag == g.tag && r.value.attrs == g.attrs
  {
    RemoveKeyed(g, "pipeline", "name", name)
  }

  /** Afterwards the group has no pipeline of that name, the other pipelines are there in
      their order and the authorization is as it was. */
  lemma {:induction false} EnsureRemovalOfPipelineReads(g: Element, name: string)
    requires EnsureRemovalOfPipeline(g, name).Ok?
    ensures var r := EnsureRemovalOfPipeline(g, name).value;
      && HasPipeline(r, name) == Ok(false)
      && Filter(PipelinesOf(r), Not(IsPipelineNamed(name))) == Filter(PipelinesOf(g), Not(IsPipelineNamed(name)))
      && AuthorizationOf(r) == AuthorizationOf(g)
  {
    var r := EnsureRemovalOfPipeline(g, name).value;
    var p := IsPipelineNamed(name);
    assert && Filter(PipelinesOf(r), p) == []
      && Filter(PipelinesOf(r), Not(p)) == Filter(PipelinesOf(g), Not(p))
      && FindAll(r, "authorization") == FindAll(g, "authorization")
    by {
      RemoveKeyedReads(g, "pipeline", "name", name);
    }
    assert AllCarry(r, "pipeline", "name") by {
      FilterMembers(g.children, Not(p));
      forall i | 0 <= i < |r.children| && r.children[i].tag == "pipeline"
        ensures "name" in r.children[i].attrs
      {
        assert r.children[i] in g.children;
        var k :| 0 <= k < |g.children| && g.children[k] == r.children[i];
      }
    }
    assert HasPipeline(r, name) == Ok(false) by {
      FilterMembers(PipelinesOf(r), p);
    }
    assert AuthorizationOf(r) == AuthorizationOf(g) by {
      FindIsFirstOfFindAll(r, "authorization");
      FindIsFirstOfFindAll(g, "authorization");
    }
  }

  /** `ensure_replacement_of_pipeline(name)`: ensures the pipeline and empties it, so it
      keeps its name but has no children and no label template. */
  function EnsureReplacementOfPipeline(g: Element, name: string): (r: Result<(Element, Element)>)
    ensures r.Ok? <==> AllCarry(g, "pipeline", "name")
    ensures r.Ok? ==> var p := r.value.1;
      Pipelines.Name(p) == Ok(name) && p.children == [] && !Pipelines.HasLabelTemplate(p)
  {
    var k :- EnsureChildWithAttribute(g, "pipeline", "name", name);
    var p := Pipelines.MakeEmpty(Child(k));
    Ok((Put(k, p), p))
  }

  /** The emptied pipeline is the one `find_pipeline` gives afterwards, at the place the
      pipeline had, and the authorization is untouched. */
  lemma {:induction false} EnsureReplacementOfPipelineFinds(g: Element, name: string)
    requires EnsureReplacementOfPipeline(g, name).Ok?
    ensures var (g1, p) := EnsureReplacementOfPipeline(g, name).value;
      && FindPipeline(g1, name) == Ok(p)
      && AuthorizationOf(g1) == AuthorizationOf(g)
  {
    var k := EnsureChildWithAttribute(g, "pipeline", "name", name).value;
    var p := Pipelines.MakeEmpty(Child(k));
    var g1 := Put(k, p);
    assert AllCarry(g1, "pipeline", "name") && FirstIndex(g1.children, IsPipelineNamed(name)) == Some(k.index) by {
      EnsureChildWithAttributeSlot(g, "pipeline", "name", name);
      FirstIndexUpdate(k.parent.children, k.index, p, IsPipelineNamed(name));
      PutCarries(k, p, "pipeline", "name");
    }
    ReplacedKeepsOthers(g, name);
  }

  /** The authorization is not where the pipeline was put. */
  lemma {:induction false} ReplacedKeepsOthers(g: Element, name: string)
    requires EnsureReplacementOfPipeline(g, name).Ok?
    ensures AuthorizationOf(EnsureReplacementOfPipeline(g, name).value.0) == AuthorizationOf(g)
  {
    var k := EnsureChildWithAttribute(g, "pipeline", "name", name).value;
    var p := Pipelines.MakeEmpty(Child(k));
    var g1 := Put(k, p);
    FilterUpdateOther(k.parent.children, k.index, p, IsTag("authorization"));
    if FirstIndex(g.children, IsPipelineNamed(name)).None? {
      FilterAppend(g.children, [Element("pipeline", map["name" := name], None, [])], IsTag("authorization"));
    }
    FindIsFirstOfFindAll(g1, "authorization");
    FindIsFirstOfFindAll(g, "authorization");
  }

  /** A second `ensure_replacement_of_pipeline` changes nothing. */
  lemma {:induction false} EnsureReplacementOfPipelineIdempotent(g: Element, name: string)
    requires EnsureReplacementOfPipeline(g, name).Ok?
    ensures var (g1, p) := EnsureReplacementOfPipeline(g, name).value;
      EnsureReplacementOfPipeline(g1, name) == Ok((g1, p))
  {
    var k := EnsureChildWithAttribute(g, "pipeline", "name", name).value;
    var p := Pipelines.MakeEmpty(Child(k));
    var g1 := Put(k, p);
    assert EnsureChildWithAttribute(g1, "pipeline", "name", name) == Ok(Ensured(g1, k.index)) by {
      EnsureChildWithAttributeSlot(g, "pipeline", "name", name);
      FirstIndexUpdate(k.parent.children, k.index, p, IsPipelineNamed(name));
      PutCarries(k, p, "pipeline", "name");
    }
    assert Pipelines.MakeEmpty(p) == p by {
      Pipelines.MakeEmptyIdempotent(Child(k));
    }
    PutChild(Ensured(g1, k.index));
  }
}
