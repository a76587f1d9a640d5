/** `GoCdConfigurator`: the operations on the root of the cruise config — the ordering
    normaliser, pipeline groups, templates, repositories, agents, server settings, config
    repositories and security. Fetching and saving the config over HTTP are not part of
    this model: every operation takes the root element and gives the new one. */
module Configurator {
  import opened Wrappers
  import opened Seqs
  import opened Xml
  import Pipelines
  import Groups
  import Security
  import ConfigRepos
  import Repositories
  import Agents

  // ---------------------------------------------------------------------------
  // Pipelines and templates

  /** `pipeline_groups`: the `pipelines` children of the root. */
  function PipelineGroups(root: Element): seq<Element> {
    FindAll(root, "pipelines")
  }

  /** The pipelines of the groups, group after group. */
  function Flatten(groups: seq<Element>): seq<Element>
    decreases |groups|
  {
    if |groups| == 0 then [] else Groups.PipelinesOf(groups[0]) + Flatten(groups[1..])
  }

  /** `pipelines`: the concatenation of every group's pipelines in document order. */
  function AllPipelines(root: Element): seq<Element> {
    Flatten(PipelineGroups(root))
  }

  /** A pipeline is listed exactly when it is a pipeline of one of the groups. */
  lemma {:induction false} FlattenMembers(groups: seq<Element>, p: Element)
    ensures p in Flatten(groups) <==> exists g :: g in groups && p in Groups.PipelinesOf(g)
    decreases |groups|
  {
    if |groups| > 0 {
      FlattenMembers(groups[1..], p);
      assert forall g :: g in groups <==> g == groups[0] || g in groups[1..];
    }
  }

  /** Listing the pipelines of two runs of groups is listing each run in turn. */
  lemma {:induction false} FlattenAppend(a: seq<Element>, b: seq<Element>)
    ensures Flatten(a + b) == Flatten(a) + Flatten(b)
    decreases |a|
  {
    if |a| == 0 {
      assert a + b == b;
    } else {
      assert (a + b)[0] == a[0] && (a + b)[1..] == a[1..] + b;
      FlattenAppend(a[1..], b);
    }
  }

  /** `pipelines` lists every pipeline of every group, and nothing else; adding a group at
      the end of the root adds its pipelines at the end of the list. */
  lemma {:induction false} AllPipelinesMembers(root: Element, p: Element, g: Element)
    ensures p in AllPipelines(root) <==> exists h :: h in PipelineGroups(root) && p in Groups.PipelinesOf(h)
    ensures g.tag == "pipelines" ==> AllPipelines(Append(root, g)) == AllPipelines(root) + Groups.PipelinesOf(g)
  {
    FlattenMembers(PipelineGroups(root), p);
    if g.tag == "pipelines" {
      FindAllAppend(root, g, "pipelines");
      FlattenAppend(PipelineGroups(root), [g]);
      assert [g][1..] == [];
    }
  }

  /** `templates`: the `pipeline` children of the first `templates` child, none when absent. */
  function Templates(root: Element): seq<Element> {
    PossiblyMissingFindAll(PossiblyMissingChild(Some(root), "templates"), "pipeline")
  }

  // ---------------------------------------------------------------------------
  // Reordering to please GoCD

  /** The root tags `reorder_elements_to_please_go` moves to the end, in turn. */
  const RootTags: seq<string> := ["pipelines", "templates", "environments", "agents"]

  lemma RootTagsDistinct()
    ensures Distinct(RootTags)
  {
  }

  /** A pipeline after its own reorder; one whose materials cannot be read stays as it is
      (the root reorder then fails as a whole). */
  function ReorderedPipeline(p: Element): Element {
    match Pipelines.ReorderPipeline(p)
    case Ok(v) => v
    case Err(_) => p
  }

  function ReorderPipelineChild(c: Element): Element {
    if c.tag == "pipeline" then ReorderedPipeline(c) else c
  }

  /** A group (or the templates container) with each of its pipelines reordered. */
  function ReorderPipelinesIn(g: Element): Element {
    g.(children := Map(g.children, ReorderPipelineChild))
  }

  function ReorderGroupChild(c: Element): Element {
    if c.tag == "pipelines" then ReorderPipelinesIn(c) else c
  }

  /** The four moves, then every group's pipelines, then the first templates container's. */
  function ReorderedChildren(cs: seq<Element>): seq<Element> {
    ModifyFirst(Map(MoveTagsToEnd(cs, RootTags), ReorderGroupChild), IsTag("templates"), ReorderPipelinesIn)
  }

  /** The reorder reads the materials of every pipeline and template. */
  predicate Readable(root: Element) {
    forall p :: p in AllPipelines(root) + Templates(root) ==> Pipelines.MaterialsOf(p).Ok?
  }

  /** `reorder_elements_to_please_go`: `pipelines`, `templates`, `environments` and `agents`
      go to the end of the root in that order, then every pipeline and template is
      reordered. Reading the materials of any of them may raise. */
  function Reorder(root: Element): (r: Result<Element>)
    ensures r.Ok? <==> forall p :: p in AllPipelines(root) + Templates(root) ==> Pipelines.MaterialsOf(p).Ok?
    ensures r.Ok? ==> r.value.tag == root.tag && r.value.attrs == root.attrs && r.value.text == root.text
  {
    if !Readable(root) then Err("pipeline materials cannot be read")
    else Ok(root.(children := ReorderedChildren(root.children)))
  }

  /** A reordered pipeline is a fixed point of the pipeline reorder. */
  lemma {:induction false} ReorderedPipelineSettles(p: Element)
    requires Pipelines.MaterialsOf(p).Ok?
    ensures Pipelines.ReorderPipeline(ReorderedPipeline(p)) == Ok(ReorderedPipeline(p))
    ensures Pipelines.MaterialsOf(ReorderedPipeline(p)).Ok?
  {
    Pipelines.ReorderPipelineIdempotent(p);
  }

  lemma {:induction false} ReorderPipelineChildIdempotent(c: Element)
    ensures ReorderPipelineChild(c).tag == c.tag
    ensures ReorderPipelineChild(ReorderPipelineChild(c)) == ReorderPipelineChild(c)
  {
    if c.tag == "pipeline" && Pipelines.ReorderPipeline(c).Ok? {
      ReorderedPipelineSettles(c);
    }
  }

  lemma {:induction false} ReorderPipelinesInIdempotent(g: Element)
    ensures ReorderPipelinesIn(g).tag == g.tag
    ensures ReorderPipelinesIn(ReorderPipelinesIn(g)) == ReorderPipelinesIn(g)
  {
    forall c | c in g.children
      ensures ReorderPipelineChild(ReorderPipelineChild(c)) == ReorderPipelineChild(c)
    {
      ReorderPipelineChildIdempotent(c);
    }
    MapIdempotent(g.children, ReorderPipelineChild);
  }

  lemma {:induction false} ReorderGroupChildIdempotent(c: Element)
    ensures ReorderGroupChild(c).tag == c.tag
    ensures ReorderGroupChild(ReorderGroupChild(c)) == ReorderGroupChild(c)
  {
    ReorderPipelinesInIdempotent(c);
  }

  /** The pipelines of a reordered group are its pipelines, each reordered. */
  lemma {:induction false} ReorderPipelinesInReads(g: Element)
    ensures Groups.PipelinesOf(ReorderPipelinesIn(g)) == Map(Groups.PipelinesOf(g), ReorderedPipeline)
  {
    forall c | c in g.children
      ensures IsTag("pipeline")(ReorderPipelineChild(c)) == IsTag("pipeline")(c)
    {
      ReorderPipelineChildIdempotent(c);
    }
    FilterMap(g.children, ReorderPipelineChild, IsTag("pipeline"));
    var f := Filter(g.children, IsTag("pipeline"));
    FilterMembers(g.children, IsTag("pipeline"));
    assert Map(f, ReorderPipelineChild) == Map(f, ReorderedPipeline);
  }

  /** Mapping a function that leaves every element alone changes nothing. */
  lemma MapIdentity(s: seq<Element>, g: Element -> Element)
    requires forall x :: x in s ==> g(x) == x
    ensures Map(s, g) == s
  {
  }

  /** The moves only rearrange the children. */
  lemma {:induction false} MovedMembers(cs: seq<Element>)
    ensures forall x :: x in MoveTagsToEnd(cs, RootTags) ==> x in cs
  {
    var m := MoveTagsToEnd(cs, RootTags);
    MoveTagsToEndPermutes(cs, RootTags);
    assert forall x :: x in m ==> x in multiset(m);
  }

  /** A test no templates container passes does not see the template reorder. */
  lemma {:induction false} TemplateReorderUnseen(cs: seq<Element>, q: Element -> bool)
    requires forall x :: x in cs && x.tag == "templates" ==> !q(x) && !q(ReorderPipelinesIn(x))
    ensures Filter(ReorderedChildren(cs), q) == Filter(Map(MoveTagsToEnd(cs, RootTags), ReorderGroupChild), q)
  {
    var m := MoveTagsToEnd(cs, RootTags);
    var n := Map(m, ReorderGroupChild);
    MovedMembers(cs);
    forall x | x in n && IsTag("templates")(x)
      ensures !q(x) && !q(ReorderPipelinesIn(x))
    {
      var i :| 0 <= i < |n| && n[i] == x;
      assert m[i] in m;
    }
    FilterModifyFirstOut(n, IsTag("templates"), ReorderPipelinesIn, q);
  }

  /** Filtering the reordered children by a test the template reorder cannot pass. */
  lemma {:induction false} ReorderedFilterOut(cs: seq<Element>, q: Element -> bool)
    requires forall x :: x in cs ==> q(ReorderGroupChild(x)) == q(x)
    requires forall x :: x in cs && x.tag == "templates" ==> !q(x) && !q(ReorderPipelinesIn(x))
    ensures Filter(ReorderedChildren(cs), q) == Map(Filter(MoveTagsToEnd(cs, RootTags), q), ReorderGroupChild)
  {
    MovedMembers(cs);
    TemplateReorderUnseen(cs, q);
    FilterMap(MoveTagsToEnd(cs, RootTags), ReorderGroupChild, q);
  }

  /** Each group is the old group with its pipelines reordered, in the old order. */
  lemma {:induction false} ReorderedGroups(cs: seq<Element>)
    ensures Filter(ReorderedChildren(cs), IsTag("pipelines")) == Map(Filter(cs, IsTag("pipelines")), ReorderPipelinesIn)
  {
    var f := Filter(cs, IsTag("pipelines"));
    RootTagsDistinct();
    ReorderedFilterOut(cs, IsTag("pipelines"));
    MoveTagsToEndGroups(cs, RootTags);
    GroupedFilter(cs, RootTags, "pipelines");
    FilterMembers(cs, IsTag("pipelines"));
    assert Map(f, ReorderGroupChild) == Map(f, ReorderPipelinesIn);
  }

  /** The children of tags other than the four keep their order and are unchanged. */
  lemma {:induction false} ReorderedOthers(cs: seq<Element>)
    ensures Filter(ReorderedChildren(cs), NotIn(RootTags)) == Filter(cs, NotIn(RootTags))
  {
    var nt := NotIn(RootTags);
    ReorderedFilterOut(cs, nt);
    MovedOthers(cs);
    FilterMembers(cs, nt);
    MapIdentity(Filter(cs, nt), ReorderGroupChild);
  }

  lemma {:induction false} MovedOthers(cs: seq<Element>)
    ensures Filter(MoveTagsToEnd(cs, RootTags), NotIn(RootTags)) == Filter(cs, NotIn(RootTags))
  {
    MoveTagsToEndGroups(cs, RootTags);
    GroupedFilterNotIn(cs, RootTags);
  }

  /** Children of any tag but `pipelines` and `templates` are unchanged, in their order. */
  lemma {:induction false} ReorderedOther(cs: seq<Element>, t: string)
    requires t != "pipelines" && t != "templates"
    ensures Filter(ReorderedChildren(cs), IsTag(t)) == Filter(cs, IsTag(t))
  {
    var m := MoveTagsToEnd(cs, RootTags);
    RootTagsDistinct();
    ReorderedFilterOut(cs, IsTag(t));
    FilterMembers(m, IsTag(t));
    MapIdentity(Filter(m, IsTag(t)), ReorderGroupChild);
    MoveTagsToEndGroups(cs, RootTags);
    if t in RootTags {
      GroupedFilter(cs, RootTags, t);
    } else {
      var nt := NotIn(RootTags);
      FilterFilter(m, nt, IsTag(t), IsTag(t));
      FilterFilter(cs, nt, IsTag(t), IsTag(t));
      GroupedFilterNotIn(cs, RootTags);
    }
  }

  /** Only the first templates container has its pipelines reordered. */
  lemma {:induction false} ReorderedTemplates(cs: seq<Element>)
    ensures Filter(ReorderedChildren(cs), IsTag("templates"))
      == ModifyFirst(Filter(cs, IsTag("templates")), IsTag("templates"), ReorderPipelinesIn)
  {
    var tp := IsTag("templates");
    var m := MoveTagsToEnd(cs, RootTags);
    var n := Map(m, ReorderGroupChild);
    RootTagsDistinct();
    FilterModifyFirstIn(n, tp, ReorderPipelinesIn, tp);
    FilterMap(m, ReorderGroupChild, tp);
    MoveTagsToEndGroups(cs, RootTags);
    GroupedFilter(cs, RootTags, "templates");
    FilterMembers(cs, tp);
    MapIdentity(Filter(cs, tp), ReorderGroupChild);
  }

  /** After the reorder the children of other tags are there unchanged and in order; each
      group is the old group with its pipelines reordered; the first templates container
      has its pipelines reordered; environments, agents and every other tag are unchanged. */
  lemma {:induction false} ReorderReads(root: Element, t: string)
    requires Reorder(root).Ok?
    ensures var r := Reorder(root).value;
      && Filter(r.children, NotIn(RootTags)) == Filter(root.children, NotIn(RootTags))
      && PipelineGroups(r) == Map(PipelineGroups(root), ReorderPipelinesIn)
      && FindAll(r, "templates") == ModifyFirst(FindAll(root, "templates"), IsTag("templates"), ReorderPipelinesIn)
      && (t != "pipelines" && t != "templates" ==> FindAll(r, t) == FindAll(root, t))
  {
    ReorderedOthers(root.children);
    ReorderedGroups(root.children);
    ReorderedTemplates(root.children);
    if t != "pipelines" && t != "templates" {
      ReorderedOther(root.children, t);
    }
  }

  /** The pipelines of the reordered groups are the old pipelines, each reordered. */
  lemma {:induction false} FlattenReordered(groups: seq<Element>)
    ensures Flatten(Map(groups, ReorderPipelinesIn)) == Map(Flatten(groups), ReorderedPipeline)
    decreases |groups|
  {
    if |groups| > 0 {
      var rest := groups[1..];
      assert Map(groups, ReorderPipelinesIn)[1..] == Map(rest, ReorderPipelinesIn);
      FlattenReordered(rest);
      ReorderPipelinesInReads(groups[0]);
      MapAppend(Groups.PipelinesOf(groups[0]), Flatten(rest), ReorderedPipeline);
    }
  }

  /** `pipelines` and `templates` of the reordered root are the old ones, each reordered,
      in the same order. */
  lemma {:induction false} PipelinesAfterReorder(root: Element)
    requires Reorder(root).Ok?
    ensures AllPipelines(Reorder(root).value) == Map(AllPipelines(root), ReorderedPipeline)
    ensures Templates(Reorder(root).value) == Map(Templates(root), ReorderedPipeline)
  {
    var r := Reorder(root).value;
    var ts := FindAll(root, "templates");
    ReorderedGroups(root.children);
    FlattenReordered(PipelineGroups(root));
    ReorderedTemplates(root.children);
    FindIsFirstOfFindAll(root, "templates");
    FindIsFirstOfFindAll(r, "templates");
    ModifyFirstAt(ts, IsTag("templates"), ReorderPipelinesIn);
    if |ts| > 0 {
      FirstIndexIs(ts, IsTag("templates"), 0);
      ReorderPipelinesInReads(ts[0]);
    }
  }

  /** The reorder reads the materials of every pipeline once more and succeeds. */
  lemma {:induction false} ReorderKeepsReadable(root: Element)
    requires Reorder(root).Ok?
    ensures Readable(Reorder(root).value)
  {
    var r := Reorder(root).value;
    var all := AllPipelines(root) + Templates(root);
    PipelinesAfterReorder(root);
    MapAppend(AllPipelines(root), Templates(root), ReorderedPipeline);
    forall p | p in AllPipelines(r) + Templates(r)
      ensures Pipelines.MaterialsOf(p).Ok?
    {
      var j :| 0 <= j < |all| && Map(all, ReorderedPipeline)[j] == p;
      ReorderedPipelineSettles(all[j]);
    }
  }

  /** The moves find the reordered children already in place. */
  lemma {:induction false} ReorderedChildrenInPlace(cs: seq<Element>)
    ensures MoveTagsToEnd(ReorderedChildren(cs), RootTags) == ReorderedChildren(cs)
  {
    var m := MoveTagsToEnd(cs, RootTags);
    var n := Map(m, ReorderGroupChild);
    RootTagsDistinct();
    assert MoveTagsToEnd(ReorderedChildren(cs), RootTags) == ModifyFirst(MoveTagsToEnd(n, RootTags), IsTag("templates"), ReorderPipelinesIn) by {
      MoveTagsToEndModifyFirst(n, RootTags, "templates", ReorderPipelinesIn);
    }
    assert MoveTagsToEnd(n, RootTags) == n by {
      MoveTagsToEndMap(m, RootTags, ReorderGroupChild);
      MoveTagsToEndIdempotent(cs, RootTags);
    }
  }

  /** The children function is idempotent, whether or not every pipeline can be read. */
  lemma {:induction false} ReorderedChildrenIdempotent(cs: seq<Element>)
    ensures ReorderedChildren(ReorderedChildren(cs)) == ReorderedChildren(cs)
  {
    var m := MoveTagsToEnd(cs, RootTags);
    var n := Map(m, ReorderGroupChild);
    var tp := IsTag("templates");
    var rc := ReorderedChildren(cs);
    ReorderedChildrenInPlace(cs);
    assert Map(rc, ReorderGroupChild) == ModifyFirst(Map(n, ReorderGroupChild), tp, ReorderPipelinesIn) by {
      forall x | x in n && tp(x)
        ensures ReorderGroupChild(ReorderPipelinesIn(x)) == ReorderPipelinesIn(x)
      {
      }
      MapModifyFirst(n, tp, ReorderPipelinesIn, ReorderGroupChild);
    }
    assert Map(n, ReorderGroupChild) == n by {
      forall x | x in m
        ensures ReorderGroupChild(ReorderGroupChild(x)) == ReorderGroupChild(x)
      {
        ReorderGroupChildIdempotent(x);
      }
      MapIdempotent(m, ReorderGroupChild);
    }
    assert ModifyFirst(rc, tp, ReorderPipelinesIn) == rc by {
      forall x | x in n
        ensures ReorderPipelinesIn(ReorderPipelinesIn(x)) == ReorderPipelinesIn(x)
      {
        ReorderPipelinesInIdempotent(x);
      }
      ModifyFirstIdempotent(n, tp, ReorderPipelinesIn);
    }
  }

  /** Reordering a reordered config changes nothing. */
  lemma {:induction false} ReorderIdempotent(root: Element)
    requires Reorder(root).Ok?
    ensures Reorder(Reorder(root).value) == Reorder(root)
  {
    ReorderKeepsReadable(root);
    ReorderedChildrenIdempotent(root.children);
  }

  /** The root children in the shape the reorder leaves them: other tags first, then the
      groups, the templates containers, the environments and the agents, each group and
      the first templates container with its pipelines reordered. */
  lemma {:induction false} ReorderShape(root: Element)
    requires Reorder(root).Ok?
    ensures Reorder(root).value.children ==
      Filter(root.children, NotIn(RootTags))
      + Map(FindAll(root, "pipelines"), ReorderPipelinesIn)
      + ModifyFirst(FindAll(root, "templates"), IsTag("templates"), ReorderPipelinesIn)
      + FindAll(root, "environments")
      + FindAll(root, "agents")
  {
    ReorderedChildrenShape(root.children);
  }

  lemma {:induction false} ReorderedChildrenShape(cs: seq<Element>)
    ensures ReorderedChildren(cs) ==
      Filter(cs, NotIn(RootTags))
      + Map(Filter(cs, IsTag("pipelines")), ReorderPipelinesIn)
      + ModifyFirst(Filter(cs, IsTag("templates")), IsTag("templates"), ReorderPipelinesIn)
      + Filter(cs, IsTag("environments"))
      + Filter(cs, IsTag("agents"))
  {
    var tp := IsTag("templates");
    var a := Filter(cs, NotIn(RootTags));
    var p := Filter(cs, IsTag("pipelines"));
    var t := Filter(cs, tp);
    var e := Filter(cs, IsTag("environments"));
    var g := Filter(cs, IsTag("agents"));
    var front := a + Map(p, ReorderPipelinesIn);
    MovedShape(cs);
    ShapeTags(cs);
    ShapeMap(a, p, t, e + g);
    ShapeModifyFirst(a, p, t, e + g);
    Regroup2(front + ModifyFirst(t, tp, ReorderPipelinesIn), e, g);
  }

  /** The moves leave the other children, then the four runs. */
  lemma {:induction false} MovedShape(cs: seq<Element>)
    ensures MoveTagsToEnd(cs, RootTags) == Filter(cs, NotIn(RootTags)) + Filter(cs, IsTag("pipelines"))
      + Filter(cs, IsTag("templates")) + (Filter(cs, IsTag("environments")) + Filter(cs, IsTag("agents")))
  {
    RootTagsDistinct();
    MoveTagsToEndGroups(cs, RootTags);
    RootBuckets(cs);
    Regroup(Filter(cs, NotIn(RootTags)), Filter(cs, IsTag("pipelines")), Filter(cs, IsTag("templates")),
      Filter(cs, IsTag("environments")), Filter(cs, IsTag("agents")));
  }

  /** The template reorder of that shape touches the templates run only. */
  lemma {:induction false} ShapeModifyFirst(a: seq<Element>, p: seq<Element>, t: seq<Element>, rest: seq<Element>)
    requires forall x :: x in a ==> x.tag !in RootTags
    requires forall x :: x in p ==> x.tag == "pipelines"
    requires forall x :: x in rest ==> x.tag == "environments" || x.tag == "agents"
    ensures var front := a + Map(p, ReorderPipelinesIn);
      ModifyFirst(front + t + rest, IsTag("templates"), ReorderPipelinesIn)
        == front + ModifyFirst(t, IsTag("templates"), ReorderPipelinesIn) + rest
  {
    var tp := IsTag("templates");
    var front := a + Map(p, ReorderPipelinesIn);
    assert forall x :: x in front ==> !tp(x);
    ModifyFirstAt(front, tp, ReorderPipelinesIn);
    ModifyFirstAt(rest, tp, ReorderPipelinesIn);
    ModifyFirstMiddle(front, t, rest, tp, ReorderPipelinesIn);
  }

  /** Which tags each run of the shape holds. */
  lemma {:induction false} ShapeTags(cs: seq<Element>)
    ensures forall x :: x in Filter(cs, NotIn(RootTags)) ==> x.tag !in RootTags
    ensures forall x :: x in Filter(cs, IsTag("pipelines")) ==> x.tag == "pipelines"
    ensures forall x :: x in Filter(cs, IsTag("templates")) ==> x.tag == "templates"
    ensures forall x :: x in Filter(cs, IsTag("environments")) + Filter(cs, IsTag("agents")) ==>
      x.tag == "environments" || x.tag == "agents"
  {
    FilterMembers(cs, NotIn(RootTags));
    FilterMembers(cs, IsTag("pipelines"));
    FilterMembers(cs, IsTag("templates"));
    FilterMembers(cs, IsTag("environments"));
    FilterMembers(cs, IsTag("agents"));
  }

  lemma Regroup<T>(a: seq<T>, p: seq<T>, t: seq<T>, e: seq<T>, g: seq<T>)
    ensures a + (p + t + e + g) == a + p + t + (e + g)
  {
  }

  lemma Regroup2<T>(x: seq<T>, e: seq<T>, g: seq<T>)
    ensures x + (e + g) == x + e + g
  {
  }

  /** The four groups of the root tags, in turn. */
  lemma {:induction false} RootBuckets(cs: seq<Element>)
    ensures Buckets(cs, RootTags) == Filter(cs, IsTag("pipelines")) + Filter(cs, IsTag("templates"))
      + Filter(cs, IsTag("environments")) + Filter(cs, IsTag("agents"))
  {
    var t1: seq<string> := ["pipelines"];
    var t2: seq<string> := ["pipelines", "templates"];
    var t3: seq<string> := ["pipelines", "templates", "environments"];
    assert t1[..0] == [];
    assert Buckets(cs, t1) == Filter(cs, IsTag("pipelines"));
    assert t2[..1] == t1;
    assert t3[..2] == t2;
    assert RootTags[..3] == t3;
  }

  /** Reordering the groups of that shape touches only the groups. */
  lemma {:induction false} ShapeMap(a: seq<Element>, p: seq<Element>, t: seq<Element>, rest: seq<Element>)
    requires forall x :: x in a ==> x.tag !in RootTags
    requires forall x :: x in t ==> x.tag == "templates"
    requires forall x :: x in rest ==> x.tag == "environments" || x.tag == "agents"
    requires forall x :: x in p ==> x.tag == "pipelines"
    ensures Map(a + p + t + rest, ReorderGroupChild) == a + Map(p, ReorderPipelinesIn) + t + rest
  {
    MapAppend(a + p + t, rest, ReorderGroupChild);
    MapAppend(a + p, t, ReorderGroupChild);
    MapAppend(a, p, ReorderGroupChild);
    MapIdentity(a, ReorderGroupChild);
    MapIdentity(t, ReorderGroupChild);
    MapIdentity(rest, ReorderGroupChild);
    assert Map(p, ReorderGroupChild) == Map(p, ReorderPipelinesIn);
  }

  /** Replacing the first match of a run that sits between runs without matches. */
  lemma {:induction false} ModifyFirstMiddle<T>(front: seq<T>, t: seq<T>, back: seq<T>, p: T -> bool, f: T -> T)
    requires ModifyFirst(front, p, f) == front && FirstIndex(front, p).None?
    requires ModifyFirst(back, p, f) == back && FirstIndex(back, p).None?
    ensures ModifyFirst(front + t + back, p, f) == front + ModifyFirst(t, p, f) + back
  {
    AppendAssoc(front, t, back);
    assert ModifyFirst(front + (t + back), p, f) == front + ModifyFirst(t + back, p, f) by {
      ModifyFirstAppend(front, t + back, p, f);
    }
    assert ModifyFirst(t + back, p, f) == ModifyFirst(t, p, f) + back by {
      ModifyFirstAppend(t, back, p, f);
      if FirstIndex(t, p).None? {
        ModifyFirstAt(t, p, f);
      }
    }
  }

  /** `config`: the reordered root in its serialised form; serialisation is a parameter. */
  function Config(root: Element, serialise: Element -> string): (r: Result<string>)
    ensures r.Ok? <==> Reorder(root).Ok?
  {
    var ordered :- Reorder(root);
    Ok(serialise(ordered))
  }

  /** Serialising twice gives the same text: the config of a serialised-and-reordered root
      is the config of the root. */
  lemma {:induction false} ConfigStable(root: Element, serialise: Element -> string)
    requires Reorder(root).Ok?
    ensures Config(Reorder(root).value, serialise) == Config(root, serialise)
  {
    ReorderIdempotent(root);
  }

  // ---------------------------------------------------------------------------
  // Pipeline groups

  function IsGroupNamed(name: string): Element -> bool {
    HasAttrValue("pipelines", "group", name)
  }

  /** A new, empty group with that name. */
  function NewGroup(name: string): Element {
    Element("pipelines", map["group" := name], None, [])
  }

  /** `ensure_pipeline_group(name)`: the first group with that name, or a new one appended
      to the root. Reading the name of a group without one raises KeyError. Gives the new
      root and the group. */
  function EnsurePipelineGroup(root: Element, name: string): (r: Result<(Element, Element)>)
    ensures r.Ok? <==> AllCarry(root, "pipelines", "group")
    ensures r.Ok? ==> Groups.Name(r.value.1) == Ok(name) && r.value.1 in PipelineGroups(r.value.0)
    ensures r.Ok? ==> r.value.0.tag == root.tag && r.value.0.attrs == root.attrs && r.value.0.text == root.text
  {
    var k :- EnsureChildWithAttribute(root, "pipelines", "group", name);
    FilterMembers(k.parent.children, IsTag("pipelines"));
    Ok((k.parent, Child(k)))
  }

  /** A group with that name is found and the root is unchanged; without one, exactly one
      new group is appended and the other groups stay as they were. */
  lemma {:induction false} EnsurePipelineGroupReads(root: Element, name: string)
    requires EnsurePipelineGroup(root, name).Ok?
    ensures var (r, g) := EnsurePipelineGroup(root, name).value;
      && (Filter(PipelineGroups(root), IsGroupNamed(name)) != [] ==> r == root)
      && (Filter(PipelineGroups(root), IsGroupNamed(name)) == [] ==>
            PipelineGroups(r) == PipelineGroups(root) + [NewGroup(name)] && g == NewGroup(name))
  {
    var p := IsGroupNamed(name);
    FirstIndexIsFilterHead(root.children, p);
    FilterFilter(root.children, IsTag("pipelines"), p, p);
    if FirstIndex(root.children, p).None? {
      FindAllAppend(root, NewGroup(name), "pipelines");
    }
  }

  /** A second call finds the group the first one found or created, and changes nothing. */
  lemma {:induction false} EnsurePipelineGroupIdempotent(root: Element, name: string)
    requires EnsurePipelineGroup(root, name).Ok?
    ensures var r := EnsurePipelineGroup(root, name).value;
      EnsurePipelineGroup(r.0, name) == Ok(r)
  {
    EnsureChildWithAttributeIdempotent(root, "pipelines", "group", name);
  }

  /** The root never holds two groups of that name through this call: their number becomes
      one when there were none and stays as it was otherwise. */
  lemma {:induction false} EnsurePipelineGroupNoDuplicate(root: Element, name: string)
    requires EnsurePipelineGroup(root, name).Ok?
    ensures var r := EnsurePipelineGroup(root, name).value.0;
      var before := |Filter(PipelineGroups(root), IsGroupNamed(name))|;
      |Filter(PipelineGroups(r), IsGroupNamed(name))| == if before == 0 then 1 else before
  {
    var p := IsGroupNamed(name);
    var r := EnsurePipelineGroup(root, name).value.0;
    EnsureChildWithAttributeNoDuplicate(root, "pipelines", "group", name);
    FilterFilter(root.children, IsTag("pipelines"), p, p);
    FilterFilter(r.children, IsTag("pipelines"), p, p);
  }

  /** `ensure_removal_of_pipeline_group(name)`: every group with that name goes. The
      comprehension reads the name of every group, so one without a name raises KeyError. */
  function EnsureRemovalOfPipelineGroup(root: Element, name: string): (r: Result<Element>)
    ensures r.Ok? <==> AllCarry(root, "pipelines", "group")
    ensures r.Ok? ==> r.value.tag == root.tag && r.value.attrs == root.attrs && r.value.text == root.text
  {
    RemoveKeyed(root, "pipelines", "group", name)
  }

  /** Afterwards the groups are the old groups without those of that name, in order; the
      other root children are untouched; without such a group nothing changes. */
  lemma {:induction false} EnsureRemovalOfPipelineGroupReads(root: Element, name: string, t: string)
    requires EnsureRemovalOfPipelineGroup(root, name).Ok?
    ensures var r := EnsureRemovalOfPipelineGroup(root, name).value;
      && PipelineGroups(r) == Filter(PipelineGroups(root), Not(IsGroupNamed(name)))
      && (t != "pipelines" ==> FindAll(r, t) == FindAll(root, t))
      && (Filter(PipelineGroups(root), IsGroupNamed(name)) == [] ==> r == root)
  {
    var p := IsGroupNamed(name);
    RemoveKeyedReads(root, "pipelines", "group", name);
    FindAllFilter(root, "pipelines", Not(p));
    FilterFilter(root.children, IsTag("pipelines"), p, p);
  }

  /** `remove_all_pipeline_groups()`: no group is left and the other root children are
      untouched. */
  function RemoveAllPipelineGroups(root: Element): (r: Element)
    ensures PipelineGroups(r) == []
    ensures r.tag == root.tag && r.attrs == root.attrs && r.text == root.text
  {
    var r := RemoveAllChildren(Some(root), Some("pipelines")).value;
    FilterDropsAll(r.children, IsTag("pipelines"));
    r
  }

  lemma {:induction false} RemoveAllPipelineGroupsKeepsOthers(root: Element, t: string)
    requires t != "pipelines"
    ensures FindAll(RemoveAllPipelineGroups(root), t) == FindAll(root, t)
  {
    RemoveAllChildrenKeepsTag(root, "pipelines", t);
  }

  // ---------------------------------------------------------------------------
  // Templates

  function IsTemplateNamed(name: string): Element -> bool {
    HasAttrValue("pipeline", "name", name)
  }

  /** The container `ensure_child('templates')` gives: the first one, or a new empty one. */
  lemma {:induction false} TemplatesOfContainer(root: Element)
    ensures Templates(root) == Groups.PipelinesOf(Child(EnsureChild(root, "templates")))
  {
    if Find(root, "templates").None? {
      assert Child(EnsureChild(root, "templates")) == Empty("templates");
    }
  }

  /** `ensure_template(name)`: the first template with that name in the templates
      container, or a new one; the container is created when absent. Reading the name of a
      template without one raises KeyError. Gives the new root and the template. */
  function EnsureTemplate(root: Element, name: string): (r: Result<(Element, Element)>)
    ensures r.Ok? <==> forall p :: p in Templates(root) ==> "name" in p.attrs
    ensures r.Ok? ==> Pipelines.Name(r.value.1) == Ok(name) && r.value.1 in Templates(r.value.0)
    ensures r.Ok? ==> r.value.0.tag == root.tag && r.value.0.attrs == root.attrs && r.value.0.text == root.text
  {
    TemplatesOfContainer(root);
    Repositories.AllCarryByFindAll(Child(EnsureChild(root, "templates")), "pipeline", "name");
    var r := EnsureKeyedIn(root, "templates", "pipeline", "name", name);
    if r.Ok? then
      EnsureTemplateFound(root, name);
      r
    else r
  }

  lemma {:induction false} EnsureTemplateFound(root: Element, name: string)
    requires EnsureKeyedIn(root, "templates", "pipeline", "name", name).Ok?
    ensures var (r, c) := EnsureKeyedIn(root, "templates", "pipeline", "name", name).value;
      c in Templates(r)
  {
    var (r, c) := EnsureKeyedIn(root, "templates", "pipeline", "name", name).value;
    EnsureKeyedInFinds(root, "templates", "pipeline", "name", name);
    FilterMembers(Find(r, "templates").value.children, IsTag("pipeline"));
  }

  /** A second call finds the template the first one found or created, and changes nothing. */
  lemma {:induction false} EnsureTemplateIdempotent(root: Element, name: string)
    requires forall p :: p in Templates(root) ==> "name" in p.attrs
    ensures var r := EnsureTemplate(root, name).value;
      EnsureTemplate(r.0, name) == Ok(r)
  {
    assert EnsureTemplate(root, name).Ok?;
    EnsureKeyedInIdempotent(root, "templates", "pipeline", "name", name);
  }

  /** The container never gains a second template of that name: their number becomes one
      when there were none and stays as it was otherwise. */
  lemma {:induction false} EnsureTemplateNoDuplicate(root: Element, name: string)
    requires forall p :: p in Templates(root) ==> "name" in p.attrs
    ensures var r := EnsureTemplate(root, name).value.0;
      var before := |Filter(Templates(root), IsTemplateNamed(name))|;
      |Filter(Templates(r), IsTemplateNamed(name))| == if before == 0 then 1 else before
  {
    assert EnsureTemplate(root, name).Ok?;
    var p := IsTemplateNamed(name);
    var r := EnsureTemplate(root, name).value.0;
    EnsureKeyedInNoDuplicate(root, "templates", "pipeline", "name", name);
    var before := PossiblyMissingIterator(PossiblyMissingChild(Some(root), "templates"));
    FilterFilter(before, IsTag("pipeline"), p, p);
    FilterFilter(Find(r, "templates").value.children, IsTag("pipeline"), p, p);
  }

  /** `ensure_replacement_of_template(name)`: the template is ensured and then emptied in
      place (no children, no label template). Gives the new root and the template. */
  function EnsureReplacementOfTemplate(root: Element, name: string): (r: Result<(Element, Element)>)
    ensures r.Ok? <==> EnsureTemplate(root, name).Ok?
    ensures r.Ok? ==> r.value.1.children == [] && !Pipelines.HasLabelTemplate(r.value.1)
    ensures r.Ok? ==> Pipelines.Name(r.value.1) == Ok(name)
  {
    var h := EnsureChild(root, "templates");
    var k :- EnsureChildWithAttribute(Child(h), "pipeline", "name", name);
    var t := Pipelines.MakeEmpty(Child(k));
    Ok((Put(h, Put(k, t)), t))
  }

  /** The emptied template sits where the found or created one was: it is the first
      template of that name. */
  lemma {:induction false} EnsureReplacementOfTemplateReads(root: Element, name: string)
    requires forall p :: p in Templates(root) ==> "name" in p.attrs
    ensures var (r, t) := EnsureReplacementOfTemplate(root, name).value;
      && FirstIndex(Templates(r), IsTemplateNamed(name)).Some?
      && Templates(r)[FirstIndex(Templates(r), IsTemplateNamed(name)).value] == t
  {
    assert EnsureReplacementOfTemplate(root, name).Ok?;
    var h := EnsureChild(root, "templates");
    var k := EnsureChildWithAttribute(Child(h), "pipeline", "name", name).value;
    var t := Pipelines.MakeEmpty(Child(k));
    var inner := Put(k, t);
    ReplacedSlot(Child(h), name);
    EnsureChildPutFinds(root, "templates", inner);
    TemplateSlot(inner.children, k.index, name);
  }

  lemma {:induction false} ReplacedSlot(c: Element, name: string)
    requires EnsureChildWithAttribute(c, "pipeline", "name", name).Ok?
    ensures var k := EnsureChildWithAttribute(c, "pipeline", "name", name).value;
      var inner := Put(k, Pipelines.MakeEmpty(Child(k)));
      && FirstIndex(inner.children, IsTemplateNamed(name)) == Some(k.index)
      && AllCarry(inner, "pipeline", "name")
  {
    var k := EnsureChildWithAttribute(c, "pipeline", "name", name).value;
    var t := Pipelines.MakeEmpty(Child(k));
    Repositories.KeyedSlotFirst(c, "pipeline", name);
    FirstIndexUpdate(k.parent.children, k.index, t, IsTemplateNamed(name));
    FilterMembers(k.parent.children, IsTag("pipeline"));
    FilterMembers(Put(k, t).children, IsTag("pipeline"));
  }

  /** A second replacement finds the emptied template and changes nothing. */
  lemma {:induction false} EnsureReplacementOfTemplateIdempotent(root: Element, name: string)
    requires forall p :: p in Templates(root) ==> "name" in p.attrs
    ensures var r := EnsureReplacementOfTemplate(root, name).value;
      EnsureReplacementOfTemplate(r.0, name) == Ok(r)
  {
    assert EnsureReplacementOfTemplate(root, name).Ok?;
    var h := EnsureChild(root, "templates");
    var k := EnsureChildWithAttribute(Child(h), "pipeline", "name", name).value;
    var t := Pipelines.MakeEmpty(Child(k));
    var inner := Put(k, t);
    var r := Put(h, inner);
    assert EnsureChild(r, "templates") == Ensured(r, h.index) by {
      EnsureChildIdempotent(root, "templates");
      FirstIndexUpdate(h.parent.children, h.index, inner, IsTag("templates"));
    }
    var k2 := Ensured(inner, k.index);
    assert EnsureChildWithAttribute(inner, "pipeline", "name", name) == Ok(k2) && Pipelines.MakeEmpty(t) == t by {
      ReplacedSlotStable(Child(h), name);
    }
    assert Put(k2, t) == inner by {
      PutChild(k2);
    }
    assert Put(Ensured(r, h.index), inner) == r by {
      PutChild(Ensured(r, h.index));
    }
  }

  /** In the container after a replacement, the second replacement finds the emptied
      template at the same place and puts back the same element. */
  lemma {:induction false} ReplacedSlotStable(c: Element, name: string)
    requires EnsureChildWithAttribute(c, "pipeline", "name", name).Ok?
    ensures var k := EnsureChildWithAttribute(c, "pipeline", "name", name).value;
      var t := Pipelines.MakeEmpty(Child(k));
      var inner := Put(k, t);
      && EnsureChildWithAttribute(inner, "pipeline", "name", name) == Ok(Ensured(inner, k.index))
      && Pipelines.MakeEmpty(t) == t
  {
    ReplacedSlot(c, name);
  }

  /** The first child of a tag-and-name is also the first such among the children of that tag. */
  lemma {:induction false} TemplateSlot(cs: seq<Element>, i: nat, name: string)
    requires FirstIndex(cs, IsTemplateNamed(name)) == Some(i)
    ensures var ts := Filter(cs, IsTag("pipeline"));
      FirstIndex(ts, IsTemplateNamed(name)).Some? && ts[FirstIndex(ts, IsTemplateNamed(name)).value] == cs[i]
  {
    var p := IsTemplateNamed(name);
    var ts := Filter(cs, IsTag("pipeline"));
    FirstIndexIsFilterHead(cs, p);
    FirstIndexIsFilterHead(ts, p);
    FilterFilter(cs, IsTag("pipeline"), p, p);
  }


  /** The root without its child at `i` (`root.remove(child)`, which goes by identity). */
  function RemoveChildAt(e: Element, i: nat): (r: Element)
    requires i < |e.children|
    ensures |r.children| == |e.children| - 1
    ensures r.tag == e.tag && r.attrs == e.attrs && r.text == e.text
  {
    e.(children := e.children[..i] + e.children[i+1..])
  }

  /** `ensure_removal_of_template(name)`: the templates of that name leave the (found or
      created) templates container, and the container itself goes when no template is left
      in it, even if it holds other children. Reading the name of a template without one
      raises KeyError. */
  function EnsureRemovalOfTemplate(root: Element, name: string): (r: Result<Element>)
    ensures r.Ok? <==> forall p :: p in Templates(root) ==> "name" in p.attrs
    ensures r.Ok? ==> r.value.tag == root.tag && r.value.attrs == root.attrs && r.value.text == root.text
  {
    var h := EnsureChild(root, "templates");
    TemplatesOfContainer(root);
    Repositories.AllCarryByFindAll(Child(h), "pipeline", "name");
    var c :- RemoveKeyed(Child(h), "pipeline", "name", name);
    if FindAll(c, "pipeline") == [] then Ok(RemoveChildAt(h.parent, h.index))
    else Ok(Put(h, c))
  }

  /** The templates that do not carry that name. */
  function TemplatesKept(root: Element, name: string): seq<Element> {
    Filter(Templates(root), Not(IsTemplateNamed(name)))
  }

  /** While another template is left, the templates are the old ones without those of
      that name, in order, and the container stays. */
  lemma {:induction false} EnsureRemovalOfTemplateKeeps(root: Element, name: string)
    requires forall p :: p in Templates(root) ==> "name" in p.attrs
    requires TemplatesKept(root, name) != []
    ensures var r := EnsureRemovalOfTemplate(root, name).value;
      && Templates(r) == TemplatesKept(root, name)
      && |FindAll(r, "templates")| == |FindAll(root, "templates")|
  {
    assert EnsureRemovalOfTemplate(root, name).Ok?;
    var p := IsTemplateNamed(name);
    var h := EnsureChild(root, "templates");
    var c := RemoveKeyed(Child(h), "pipeline", "name", name).value;
    TemplatesOfContainer(root);
    RemoveKeyedReads(Child(h), "pipeline", "name", name);
    FindAllFilter(Child(h), "pipeline", Not(p));
    EnsureChildPutFinds(root, "templates", c);
  }

  /** When no other template is left the container goes: the next templates container, if
      any, becomes the one read; without a container the root is unchanged. */
  lemma {:induction false} EnsureRemovalOfTemplateDrops(root: Element, name: string)
    requires forall p :: p in Templates(root) ==> "name" in p.attrs
    requires TemplatesKept(root, name) == []
    ensures var r := EnsureRemovalOfTemplate(root, name).value;
      && (FindAll(root, "templates") == [] ==> r == root)
      && (FindAll(root, "templates") != [] ==> FindAll(r, "templates") == FindAll(root, "templates")[1..])
  {
    assert EnsureRemovalOfTemplate(root, name).Ok?;
    var p := IsTemplateNamed(name);
    var h := EnsureChild(root, "templates");
    var c := RemoveKeyed(Child(h), "pipeline", "name", name).value;
    TemplatesOfContainer(root);
    RemoveKeyedReads(Child(h), "pipeline", "name", name);
    FindAllFilter(Child(h), "pipeline", Not(p));
    assert FindAll(c, "pipeline") == [] by {
      FilterFilter(c.children, IsTag("pipeline"), p, p);
      FilterSplitEmpty(FindAll(c, "pipeline"), p);
    }
    FirstIndexIsFilterHead(root.children, IsTag("templates"));
    if Find(root, "templates").None? {
      assert h.parent.children[..h.index] + h.parent.children[h.index+1..] == root.children;
    } else {
      FilterRemoveAtFirst(root.children, h.index, IsTag("templates"));
    }
  }

  /** A sequence none of whose elements pass `p` or fail it is empty. */
  lemma {:induction false} FilterSplitEmpty<T>(s: seq<T>, p: T -> bool)
    requires Filter(s, p) == [] && Filter(s, Not(p)) == []
    ensures s == []
  {
    if s != [] {
      FilterMembers(s, p);
      FilterMembers(s, Not(p));
    }
  }

  /** Children of any other tag are untouched. */
  lemma {:induction false} EnsureRemovalOfTemplateKeepsOthers(root: Element, name: string, t: string)
    requires forall p :: p in Templates(root) ==> "name" in p.attrs
    requires t != "templates"
    ensures FindAll(EnsureRemovalOfTemplate(root, name).value, t) == FindAll(root, t)
  {
    assert EnsureRemovalOfTemplate(root, name).Ok?;
    var h := EnsureChild(root, "templates");
    var c := RemoveKeyed(Child(h), "pipeline", "name", name).value;
    if FindAll(c, "pipeline") == [] {
      FilterRemoveAtOther(h.parent.children, h.index, IsTag(t));
      if Find(root, "templates").None? {
        FindAllAppend(root, Empty("templates"), t);
      }
    } else {
      EnsureChildPutKeepsOthers(root, "templates", c, t);
    }
  }

  // ---------------------------------------------------------------------------
  // Repositories

  /** `repositories`: the `repository` children of the first `repositories` child. */
  function RepositoriesOf(root: Element): seq<Element> {
    PossiblyMissingFindAll(PossiblyMissingChild(Some(root), "repositories"), "repository")
  }

  /** `ensure_repository(name)`: find-or-create by name in the found-or-created
      `repositories`; the repository gets `freshId` (a `uuid4()` in the source) only when it
      has no id. Reading the name of a repository without one raises KeyError. */
  function EnsureRepository(root: Element, name: string, freshId: string): (r: Result<(Element, Element)>)
    ensures r.Ok? <==> AllCarry(Child(EnsureChild(root, "repositories")), "repository", "name")
    ensures r.Ok? ==> Repositories.Name(r.value.1) == Ok(name) && Repositories.HasId(r.value.1)
    ensures r.Ok? ==> r.value.1 in RepositoriesOf(r.value.0)
  {
    var r := Repositories.PutNamed(root, "repositories", "repository", name, freshId, Repositories.Keep);
    if r.Ok? then
      Repositories.PutNamedFinds(root, "repositories", "repository", name, freshId, Repositories.Keep);
      var cs := Find(r.value.0, "repositories").value.children;
      FilterMembers(cs, IsTag("repository"));
      r
    else r
  }

  /** A second call, whatever fresh id it is offered, changes nothing. */
  lemma {:induction false} EnsureRepositoryIdempotent(root: Element, name: string, id1: string, id2: string)
    requires EnsureRepository(root, name, id1).Ok?
    ensures var r := EnsureRepository(root, name, id1).value;
      EnsureRepository(r.0, name, id2) == Ok(r)
  {
    Repositories.PutNamedIdempotent(root, "repositories", "repository", name, id1, id2, Repositories.Keep);
  }

  /** A repository of that name that already has an id is found and nothing changes. */
  lemma {:induction false} EnsureRepositoryKeepsExisting(root: Element, name: string, freshId: string)
    requires EnsureRepository(root, name, freshId).Ok?
    requires Find(root, "repositories").Some?
    requires var cs := Find(root, "repositories").value.children;
      var i := FirstIndex(cs, HasAttrValue("repository", "name", name));
      i.Some? && Repositories.HasId(cs[i.value])
    ensures var cs := Find(root, "repositories").value.children;
      EnsureRepository(root, name, freshId) ==
        Ok((root, cs[FirstIndex(cs, HasAttrValue("repository", "name", name)).value]))
  {
    var h := EnsureChild(root, "repositories");
    var k := EnsureChildWithAttribute(Child(h), "repository", "name", name).value;
    assert k.parent == Child(h);
    PutChild(k);
    PutChild(h);
  }

  // ---------------------------------------------------------------------------
  // Agents

  /** `agents`: the `agent` children of the first `agents` child. */
  function AgentsOf(root: Element): seq<Element> {
    PossiblyMissingFindAll(PossiblyMissingChild(Some(root), "agents"), "agent")
  }

  function IsAgentAt(hostname: string): Element -> bool {
    HasAttrValue("agent", "hostname", hostname)
  }

  /** `ensure_removal_of_agent(hostname)`: every agent with that host name leaves the first
      `agents` child. Reading the host name of an agent without one raises KeyError. */
  function EnsureRemovalOfAgent(root: Element, hostname: string): (r: Result<Element>)
    ensures r.Ok? <==> forall a :: a in AgentsOf(root) ==> "hostname" in a.attrs
    ensures r.Ok? ==> r.value.tag == root.tag && r.value.attrs == root.attrs && r.value.text == root.text
  {
    match Find(root, "agents")
    case None => Ok(root)
    case Some(a) =>
      Repositories.AllCarryByFindAll(a, "agent", "hostname");
      var a2 :- RemoveKeyed(a, "agent", "hostname", hostname);
      Ok(Put(EnsureChild(root, "agents"), a2))
  }

  /** The agents are the old ones without those at that host, in order; the `agents`
      child stays; nothing else changes; and with no agent at that host nothing changes. */
  lemma {:induction false} EnsureRemovalOfAgentReads(root: Element, hostname: string, t: string)
    requires EnsureRemovalOfAgent(root, hostname).Ok?
    ensures var r := EnsureRemovalOfAgent(root, hostname).value;
      && AgentsOf(r) == Filter(AgentsOf(root), Not(IsAgentAt(hostname)))
      && |FindAll(r, "agents")| == |FindAll(root, "agents")|
      && (t != "agents" ==> FindAll(r, t) == FindAll(root, t))
      && (Filter(AgentsOf(root), IsAgentAt(hostname)) == [] ==> r == root)
  {
    var p := IsAgentAt(hostname);
    if Find(root, "agents").Some? {
      var a := Find(root, "agents").value;
      var a2 := RemoveKeyed(a, "agent", "hostname", hostname).value;
      var h := EnsureChild(root, "agents");
      RemoveKeyedReads(a, "agent", "hostname", hostname);
      FindAllFilter(a, "agent", Not(p));
      EnsureChildPutFinds(root, "agents", a2);
      if t != "agents" {
        EnsureChildPutKeepsOthers(root, "agents", a2, t);
      }
      if Filter(AgentsOf(root), p) == [] {
        FilterFilter(a.children, IsTag("agent"), p, p);
        assert a2 == a;
        PutChild(h);
      }
    }
  }

  // ---------------------------------------------------------------------------
  // Server attributes

  const ArtifactsDir := "artifactsdir"
  const SiteUrl := "siteUrl"
  const AgentAutoRegisterKey := "agentAutoRegisterKey"

  /** The getters `artifacts_dir`, `site_url` and `agent_auto_register_key`: the attribute
      of the first `server` child, or None. */
  function ServerAttribute(root: Element, name: string): (r: Option<string>)
    ensures r.Some? <==> Find(root, "server").Some? && name in Find(root, "server").value.attrs
  {
    PossiblyMissingAttribute(PossiblyMissingChild(Some(root), "server"), name)
  }

  /** The setters: the attribute is set on the found or created `server` child. */
  function SetServerAttribute(root: Element, name: string, value: string): (r: Element)
    ensures Find(r, "server").Some?
    ensures r.tag == root.tag && r.attrs == root.attrs && r.text == root.text
  {
    var h := EnsureChild(root, "server");
    EnsureChildPutFinds(root, "server", SetAttr(Child(h), name, value));
    Put(h, SetAttr(Child(h), name, value))
  }

  /** Reading back gives the value set; other attributes read as before; other children
      are untouched; and no second `server` child appears. */
  lemma {:induction false} ServerAttributeReadsBack(root: Element, name: string, value: string, other: string, t: string)
    ensures var r := SetServerAttribute(root, name, value);
      && ServerAttribute(r, name) == Some(value)
      && (other != name ==> ServerAttribute(r, other) == ServerAttribute(root, other))
      && (t != "server" ==> FindAll(r, t) == FindAll(root, t))
      && |FindAll(r, "server")| == if Find(root, "server").None? then 1 else |FindAll(root, "server")|
  {
    var h := EnsureChild(root, "server");
    var c := SetAttr(Child(h), name, value);
    EnsureChildPutFinds(root, "server", c);
    if t != "server" {
      EnsureChildPutKeepsOthers(root, "server", c, t);
    }
  }

  // ---------------------------------------------------------------------------
  // Config repos

  /** `config_repos`: the first `config-repos` child, which may be absent. */
  function ConfigReposOf(root: Element): Option<Element> {
    Find(root, "config-repos")
  }

  /** `ensure_config_repos()`: the first `config-repos` child, created when absent. */
  function EnsureConfigRepos(root: Element): (r: (Element, Element))
    ensures ConfigReposOf(r.0) == Some(r.1)
    ensures ConfigReposOf(root).Some? ==> r == (root, ConfigReposOf(root).value)
    ensures ConfigReposOf(root).None? ==> ConfigRepos.Repos(r.1) == []
  {
    EnsureFound(root, "config-repos")
  }

  /** A second call changes nothing, and no other child is touched. */
  lemma {:induction false} EnsureConfigReposIdempotent(root: Element, t: string)
    ensures EnsureConfigRepos(EnsureConfigRepos(root).0) == EnsureConfigRepos(root)
    ensures t != "config-repos" ==> FindAll(EnsureConfigRepos(root).0, t) == FindAll(root, t)
  {
    EnsureFoundIdempotent(root, "config-repos");
  }

  /** `ensure_replacement_of_config_repos()`: the container is ensured and emptied. */
  function EnsureReplacementOfConfigRepos(root: Element): (r: (Element, Element))
    ensures ConfigReposOf(r.0) == Some(r.1) && ConfigRepos.Repos(r.1) == []
    ensures ConfigReposOf(root).Some? ==> r.1.attrs == ConfigReposOf(root).value.attrs
  {
    var r := EnsureEmptyChild(root, "config-repos");
    FilterDropsAll(r.1.children, IsTag("config-repo"));
    r
  }

  /** Replacing again changes nothing, and no other child is touched. */
  lemma {:induction false} EnsureReplacementOfConfigReposIdempotent(root: Element, t: string)
    ensures EnsureReplacementOfConfigRepos(EnsureReplacementOfConfigRepos(root).0) == EnsureReplacementOfConfigRepos(root)
    ensures t != "config-repos" ==> FindAll(EnsureReplacementOfConfigRepos(root).0, t) == FindAll(root, t)
  {
    EnsureEmptyChildIdempotent(root, "config-repos");
  }

  // ---------------------------------------------------------------------------
  // Security

  /** `ensure_security()`: the first `security` child of the found-or-created `server`,
      created when absent. Gives the new root and the security element. */
  function EnsureSecurity(root: Element): (r: (Element, Element))
    ensures Find(r.0, "server").Some? && Find(Find(r.0, "server").value, "security") == Some(r.1)
    ensures r.1.tag == "security"
  {
    var h := EnsureChild(root, "server");
    var (s, sec) := EnsureFound(Child(h), "security");
    EnsureChildPutFinds(root, "server", s);
    (Put(h, s), sec)
  }

  /** `security`: reading it ensures the `server` child (the getter mutates) and gives its
      first `security` child, which may be absent. */
  function SecurityOf(root: Element): (r: (Element, Option<Element>))
    ensures Find(r.0, "server").Some? && r.1 == Find(Find(r.0, "server").value, "security")
    ensures Find(root, "server").Some? ==> r.0 == root
  {
    var h := EnsureChild(root, "server");
    (h.parent, Find(Child(h), "security"))
  }

  /** After `ensure_security()` the getter finds that element and changes nothing more,
      and a second call changes nothing. */
  lemma {:induction false} EnsureSecurityReads(root: Element)
    ensures var (r, sec) := EnsureSecurity(root);
      && SecurityOf(r) == (r, Some(sec))
      && EnsureSecurity(r) == (r, sec)
  {
    var h := EnsureChild(root, "server");
    var (s, sec) := EnsureFound(Child(h), "security");
    var r := Put(h, s);
    EnsureChildPutFinds(root, "server", s);
    var h2 := EnsureChild(r, "server");
    assert Child(h2) == s;
    PutChild(h2);
  }

  /** `ensure_replacement_of_security()`: the security element is ensured and emptied. */
  function EnsureReplacementOfSecurity(root: Element): (r: (Element, Element))
    ensures Find(r.0, "server").Some? && Find(Find(r.0, "server").value, "security") == Some(r.1)
    ensures r.1.tag == "security" && r.1.children == []
  {
    var h := EnsureChild(root, "server");
    var (s, sec) := EnsureEmptyChild(Child(h), "security");
    EnsureChildPutFinds(root, "server", s);
    (Put(h, s), Security.MakeEmpty(sec))
  }

  /** The getter then finds the emptied element, and replacing again changes nothing. */
  lemma {:induction false} EnsureReplacementOfSecurityReads(root: Element)
    ensures var (r, sec) := EnsureReplacementOfSecurity(root);
      && SecurityOf(r) == (r, Some(sec))
      && EnsureReplacementOfSecurity(r) == (r, sec)
  {
    var h := EnsureChild(root, "server");
    var (s, sec) := EnsureEmptyChild(Child(h), "security");
    var r := Put(h, s);
    EnsureChildPutFinds(root, "server", s);
    EnsureEmptyChildIdempotent(Child(h), "security");
    var h2 := EnsureChild(r, "server");
    assert Child(h2) == s;
    PutChild(h2);
  }

  // ---------------------------------------------------------------------------
  // Git urls

  /** The url of one pipeline, when it has a single git material. Every pipeline is asked
      `has_single_git_material`, which decodes its materials. */
  function GitUrlOf(p: Element): (r: Result<seq<string>>)
    ensures r.Ok? <==> Pipelines.MaterialsOf(p).Ok?
    ensures r.Ok? ==> r.value == if Pipelines.GitMaterial(p).Ok? then [Pipelines.GitMaterial(p).value.url] else []
  {
    var single :- Pipelines.HasSingleGitMaterial(p);
    Ok(if single then [Pipelines.GitMaterial(p).value.url] else [])
  }

  /** The urls of the pipelines with exactly one git material, in order. */
  function GitUrlsOf(ps: seq<Element>): (r: Result<seq<string>>)
    ensures r.Ok? <==> forall p :: p in ps ==> Pipelines.MaterialsOf(p).Ok?
  {
    FlatMapResult(ps, GitUrlOf)
  }

  /** A url is listed exactly when some pipeline's single git material has it. */
  lemma {:induction false} GitUrlsOfMembers(ps: seq<Element>, u: string)
    requires GitUrlsOf(ps).Ok?
    ensures u in GitUrlsOf(ps).value <==>
      exists p :: p in ps && Pipelines.GitMaterial(p).Ok? && Pipelines.GitMaterial(p).value.url == u
  {
    FlatMapResultMembers(ps, GitUrlOf, u);
  }

  /** `git_urls`: over every pipeline of every group. */
  function GitUrls(root: Element): (r: Result<seq<string>>)
    ensures r.Ok? <==> forall p :: p in AllPipelines(root) ==> Pipelines.MaterialsOf(p).Ok?
  {
    GitUrlsOf(AllPipelines(root))
  }

  /** A new group's pipelines add their urls after the existing ones. */
  lemma {:induction false} GitUrlsAppendGroup(root: Element, g: Element)
    requires g.tag == "pipelines"
    requires GitUrls(root).Ok? && GitUrlsOf(Groups.PipelinesOf(g)).Ok?
    ensures GitUrls(Append(root, g)) == Ok(GitUrls(root).value + GitUrlsOf(Groups.PipelinesOf(g)).value)
  {
    AllPipelinesMembers(root, g, g);
    FlatMapResultAppend(AllPipelines(root), Groups.PipelinesOf(g), GitUrlOf);
  }
}
