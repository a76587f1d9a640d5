/** A pipeline (or template): its attributes, materials, parameters, stages and timer,
    and the order of its children that the GoCD server accepts. Environment variables
    of a pipeline are those of `Generic`. */
module Pipelines {
  import opened Wrappers
  import opened Seqs
  import opened Xml
  import M = Materials
  import Stages

  /** `Pipeline.name` */
  function Name(e: Element): (r: Result<string>)
    ensures r.Ok? <==> "name" in e.attrs
    ensures r.Ok? ==> r.value == e.attrs["name"]
  {
    Required(e.attrs, "name")
  }

  // ---------------------------------------------------------------------------
  // Attributes

  /** `DEFAULT_LABEL_TEMPLATE` */
  const DefaultLabelTemplate: string := "0.${COUNT}"

  predicate HasLabelTemplate(e: Element) {
    "labeltemplate" in e.attrs
  }

  /** `label_template`: raises when there is none. */
  function LabelTemplate(e: Element): (r: Result<string>)
    ensures r.Ok? <==> HasLabelTemplate(e)
    ensures r.Ok? ==> r.value == e.attrs["labeltemplate"]
  {
    if HasLabelTemplate(e) then Ok(e.attrs["labeltemplate"]) else Err("Does not have a label template")
  }

  /** `set_label_template(t)` */
  function SetLabelTemplate(e: Element, t: string): (r: Element)
    ensures LabelTemplate(r) == Ok(t)
    ensures r.children == e.children && r.tag == e.tag
    ensures forall k :: k in e.attrs && k != "labeltemplate" ==> k in r.attrs && r.attrs[k] == e.attrs[k]
  {
    SetAttr(e, "labeltemplate", t)
  }

  /** `set_default_label_template()` */
  function SetDefaultLabelTemplate(e: Element): (r: Element)
    ensures LabelTemplate(r) == Ok("0.${COUNT}")
  {
    SetLabelTemplate(e, DefaultLabelTemplate)
  }

  /** `has_automatic_pipeline_locking`: `isLocked` is literally "true". */
  predicate HasAutomaticPipelineLocking(e: Element) {
    "isLocked" in e.attrs && e.attrs["isLocked"] == "true"
  }

  /** `set_automatic_pipeline_locking()` */
  function SetAutomaticPipelineLocking(e: Element): (r: Element)
    ensures HasAutomaticPipelineLocking(r)
    ensures r.children == e.children
  {
    SetAttr(e, "isLocked", "true")
  }

  /** The template a pipeline is based on, if any. */
  function TemplateName(e: Element): Option<string> {
    Get(e.attrs, "template")
  }

  /** `is_based_on_template` */
  predicate IsBasedOnTemplate(e: Element) {
    TemplateName(e).Some?
  }

  /** `set_template_name(name)` */
  function SetTemplateName(e: Element, name: string): (r: Element)
    ensures TemplateName(r) == Some(name) && IsBasedOnTemplate(r)
    ensures r.children == e.children
  {
    SetAttr(e, "template", name)
  }

  // ---------------------------------------------------------------------------
  // Materials

  /** The children of the first `materials` child. */
  function MaterialElements(e: Element): seq<Element> {
    PossiblyMissingIterator(PossiblyMissingChild(Some(e), "materials"))
  }

  /** `Pipeline.materials`: every child of the first `materials` child, decoded. */
  function MaterialsOf(e: Element): Result<seq<M.Material>> {
    MapResult(MaterialElements(e), M.Decode)
  }

  /** `__add_material(m)`: ensures the `materials` child and appends the encoding of `m`. */
  function AddMaterial(e: Element, m: M.Material): (r: Element)
    ensures r.tag == e.tag && r.attrs == e.attrs && r.text == e.text
    ensures MaterialElements(r) == MaterialElements(e) + [M.Encode(m)]
  {
    var h := EnsureChild(e, "materials");
    var c := M.AppendTo(m, Child(h));
    EnsureChildPutFinds(e, "materials", c);
    Put(h, c)
  }

  /** Adding a material touches only the first `materials` child, creating it if needed. */
  lemma {:induction false} AddMaterialKeepsOthers(e: Element, m: M.Material, t: string)
    requires t != "materials"
    ensures FindAll(AddMaterial(e, m), t) == FindAll(e, t)
  {
    var h := EnsureChild(e, "materials");
    EnsureChildPutKeepsOthers(e, "materials", M.AppendTo(m, Child(h)), t);
  }

  /** The added material reads back, normalised, after the existing ones. */
  lemma {:induction false} AddMaterialReads(e: Element, m: M.Material)
    requires MaterialsOf(e).Ok?
    ensures MaterialsOf(AddMaterial(e, m)) == Ok(MaterialsOf(e).value + [M.Normalize(m)])
  {
    M.DecodeEncode(m);
    MapResultSingle(M.Encode(m), M.Decode);
    MapResultAppend(MaterialElements(e), [M.Encode(m)], M.Decode);
  }

  /** `ensure_material(m)` as written: adds `m` unless an equal material is there. The
      materials already there are decoded, so a material that does not read back as
      itself (a git branch given as "master") is never found and is added again. */
  function EnsureMaterialAsWritten(e: Element, m: M.Material): (r: Result<Element>)
    ensures r.Ok? <==> MaterialsOf(e).Ok?
  {
    var ms :- MaterialsOf(e);
    if m in ms then Ok(e) else Ok(AddMaterial(e, m))
  }

  /** `ensure_material(m)` comparing with the form `m` reads back in. */
  function EnsureMaterial(e: Element, m: M.Material): (r: Result<Element>)
    ensures r.Ok? <==> MaterialsOf(e).Ok?
  {
    var ms :- MaterialsOf(e);
    if M.Normalize(m) in ms then Ok(e) else Ok(AddMaterial(e, m))
  }

  /** For a material that reads back as itself, both agree. */
  lemma EnsureMaterialAgrees(e: Element, m: M.Material)
    requires M.Normalize(m) == m
    ensures EnsureMaterialAsWritten(e, m) == EnsureMaterial(e, m)
  {
  }

  /** The material is there afterwards, and added only when it was missing. */
  lemma {:induction false} EnsureMaterialReads(e: Element, m: M.Material)
    requires MaterialsOf(e).Ok?
    ensures var ms := MaterialsOf(e).value;
      MaterialsOf(EnsureMaterial(e, m).value) == Ok(if M.Normalize(m) in ms then ms else ms + [M.Normalize(m)])
  {
    if M.Normalize(m) !in MaterialsOf(e).value {
      AddMaterialReads(e, m);
    }
  }

  lemma {:induction false} EnsureMaterialIdempotent(e: Element, m: M.Material)
    requires MaterialsOf(e).Ok?
    ensures EnsureMaterial(EnsureMaterial(e, m).value, m) == EnsureMaterial(e, m)
  {
    EnsureMaterialReads(e, m);
  }

  /** A pipeline with no materials. */
  function BarePipeline(name: string): Element {
    Element("pipeline", map["name" := name], None, [])
  }

  function MasterGit(url: string): M.Material {
    M.GitMaterial(url, Some("master"), None, true, {}, None)
  }

  /** Ensuring a git material on branch "master" twice, as written, gives two copies. */
  lemma {:induction false} EnsureMaterialAsWrittenRepeatsMaster(name: string, url: string)
    ensures var once := EnsureMaterialAsWritten(BarePipeline(name), MasterGit(url)).value;
      MaterialsOf(once) == Ok([M.PlainGit(url)])
      && MaterialsOf(EnsureMaterialAsWritten(once, MasterGit(url)).value) == Ok([M.PlainGit(url), M.PlainGit(url)])
  {
    var e := BarePipeline(name);
    assert MaterialsOf(e) == Ok([]);
    assert M.Normalize(MasterGit(url)) == M.PlainGit(url);
    assert [] + [M.PlainGit(url)] == [M.PlainGit(url)];
    AddMaterialReads(e, MasterGit(url));
    var once := AddMaterial(e, MasterGit(url));
    assert MasterGit(url) != M.PlainGit(url);
    assert MasterGit(url) !in [M.PlainGit(url)];
    assert [M.PlainGit(url)] + [M.PlainGit(url)] == [M.PlainGit(url), M.PlainGit(url)];
    AddMaterialReads(once, MasterGit(url));
  }

  /** Ensuring it twice with the comparison on the read-back form gives one copy. */
  lemma {:induction false} EnsureMaterialOnceForMaster(name: string, url: string)
    ensures var once := EnsureMaterial(BarePipeline(name), MasterGit(url)).value;
      MaterialsOf(once) == Ok([M.PlainGit(url)]) && EnsureMaterial(once, MasterGit(url)) == Ok(once)
  {
    var e := BarePipeline(name);
    assert MaterialsOf(e) == Ok([]);
    assert M.Normalize(MasterGit(url)) == M.PlainGit(url);
    assert [] + [M.PlainGit(url)] == [M.PlainGit(url)];
    AddMaterialReads(e, MasterGit(url));
  }

  function IsGitMaterial(m: M.Material): bool {
    m.GitMaterial?
  }

  function IsPackageMaterial(m: M.Material): bool {
    m.PackageMaterial?
  }

  /** `git_materials` */
  function GitMaterials(e: Element): (r: Result<seq<M.Material>>)
    ensures r.Ok? <==> MaterialsOf(e).Ok?
    ensures r.Ok? ==> r.value == Filter(MaterialsOf(e).value, IsGitMaterial)
  {
    var ms :- MaterialsOf(e);
    Ok(Filter(ms, IsGitMaterial))
  }

  /** `git_material`: the one git material; raises when there is none or more than one. */
  function GitMaterial(e: Element): (r: Result<M.Material>)
    ensures r.Ok? <==> GitMaterials(e).Ok? && |GitMaterials(e).value| == 1
    ensures r.Ok? ==> r.value == GitMaterials(e).value[0] && r.value.GitMaterial?
  {
    var gits :- GitMaterials(e);
    if |gits| == 0 then Err("pipeline has no git")
    else if |gits| > 1 then Err("pipeline has more than one git")
    else Ok(gits[0])
  }

  /** `has_single_git_material` */
  function HasSingleGitMaterial(e: Element): (r: Result<bool>)
    ensures r.Ok? <==> MaterialsOf(e).Ok?
    ensures r == Ok(true) <==> GitMaterial(e).Ok?
  {
    var gits :- GitMaterials(e);
    Ok(|gits| == 1)
  }

  /** `package_materials` as written: it asks every material for `is_package`, which no
      material class defines, so it raises as soon as there is any material. */
  function PackageMaterialsAsWritten(e: Element): (r: Result<seq<M.Material>>)
    ensures r.Ok? <==> MaterialsOf(e) == Ok([])
  {
    var ms :- MaterialsOf(e);
    if |ms| == 0 then Ok([]) else Err("AttributeError: is_package")
  }

  /** `package_materials` with `is_package` true exactly for package materials. */
  function PackageMaterials(e: Element): (r: Result<seq<M.Material>>)
    ensures r.Ok? <==> MaterialsOf(e).Ok?
    ensures r.Ok? ==> r.value == Filter(MaterialsOf(e).value, IsPackageMaterial)
  {
    var ms :- MaterialsOf(e);
    Ok(Filter(ms, IsPackageMaterial))
  }

  /** The first `materials` child without its children of one tag. */
  function WithoutMaterialsTagged(e: Element, tag: string): (r: Element)
    ensures MaterialElements(r) == Filter(MaterialElements(e), NotTag(tag))
    ensures r.tag == e.tag && r.attrs == e.attrs && r.text == e.text
    ensures Find(r, "materials").Some? <==> Find(e, "materials").Some?
    ensures forall t :: t != "materials" ==> FindAll(r, t) == FindAll(e, t)
  {
    var f := (c: Element) => RemoveAllChildren(Some(c), Some(tag)).value;
    if Find(e, "materials").Some? then
      ModifyChildIsPut(e, "materials", f);
      EnsureChildPutFinds(e, "materials", f(Find(e, "materials").value));
      forall t | t != "materials"
        ensures FindAll(ModifyChild(e, "materials", f), t) == FindAll(e, t)
      {
        EnsureChildPutKeepsOthers(e, "materials", f(Find(e, "materials").value), t);
      }
      ModifyChild(e, "materials", f)
    else
      ModifyChild(e, "materials", f)
  }

  /** `set_git_material(m)` / `set_package_material(m)`: raises when the pipeline already
      has more than one material of the kind; otherwise drops every material of the kind
      and adds `m`. The kind is read through `kinds`, which may raise. */
  function ReplaceKind(e: Element, kinds: Result<seq<M.Material>>, tag: string, m: M.Material): (r: Result<Element>)
    ensures r.Ok? <==> kinds.Ok? && |kinds.value| <= 1
  {
    var existing :- kinds;
    if |existing| > 1 then Err("Cannot set " + tag + " material for pipeline that already has multiple " + tag + " materials")
    else Ok(AddMaterial(WithoutMaterialsTagged(e, tag), m))
  }

  /** `set_git_material(m)` */
  function SetGitMaterial(e: Element, m: M.Material): (r: Result<Element>)
    ensures r.Ok? <==> GitMaterials(e).Ok? && |GitMaterials(e).value| <= 1
  {
    ReplaceKind(e, GitMaterials(e), "git", m)
  }

  /** `set_package_material(m)` as written. */
  function SetPackageMaterialAsWritten(e: Element, m: M.Material): (r: Result<Element>)
    ensures r.Ok? <==> MaterialsOf(e) == Ok([])
  {
    ReplaceKind(e, PackageMaterialsAsWritten(e), "package", m)
  }

  /** `set_package_material(m)` with `is_package` defined. */
  function SetPackageMaterial(e: Element, m: M.Material): (r: Result<Element>)
    ensures r.Ok? <==> PackageMaterials(e).Ok? && |PackageMaterials(e).value| <= 1
  {
    ReplaceKind(e, PackageMaterials(e), "package", m)
  }

  /** A decoded material has the kind its tag names. */
  lemma DecodedKind(c: Element)
    requires M.Decode(c).Ok?
    ensures IsGitMaterial(M.Decode(c).value) == (c.tag == "git")
    ensures IsPackageMaterial(M.Decode(c).value) == (c.tag == "package")
  {
  }

  /** Git materials are decoded from `git` children alone, and normalising keeps the kind. */
  lemma {:induction false} GitKind()
    ensures forall c :: M.Decode(c).Ok? ==> IsGitMaterial(M.Decode(c).value) == (c.tag == "git")
    ensures forall x :: IsGitMaterial(M.Normalize(x)) == IsGitMaterial(x)
  {
    forall c | M.Decode(c).Ok?
      ensures IsGitMaterial(M.Decode(c).value) == (c.tag == "git")
    {
      DecodedKind(c);
    }
  }

  /** Package materials are decoded from `package` children alone, and normalising keeps the kind. */
  lemma {:induction false} PackageKind()
    ensures forall c :: M.Decode(c).Ok? ==> IsPackageMaterial(M.Decode(c).value) == (c.tag == "package")
    ensures forall x :: IsPackageMaterial(M.Normalize(x)) == IsPackageMaterial(x)
  {
    forall c | M.Decode(c).Ok?
      ensures IsPackageMaterial(M.Decode(c).value) == (c.tag == "package")
    {
      DecodedKind(c);
    }
  }

  /** Dropping the children of a tag drops exactly the decoded materials of that kind. */
  lemma {:induction false} WithoutMaterialsReads(e: Element, tag: string, kind: M.Material -> bool)
    requires MaterialsOf(e).Ok?
    requires forall c :: M.Decode(c).Ok? ==> kind(M.Decode(c).value) == (c.tag == tag)
    ensures MaterialsOf(WithoutMaterialsTagged(e, tag)) == Ok(Filter(MaterialsOf(e).value, Not(kind)))
  {
    MapResultFilter(MaterialElements(e), M.Decode, NotTag(tag), Not(kind));
  }

  /** After `set_git_material(m)` the pipeline has exactly one git material, `m` as it
      reads back, and every other material is kept in order. */
  lemma {:induction false} SetGitMaterialReads(e: Element, m: M.Material)
    requires m.GitMaterial?
    requires GitMaterials(e).Ok? && |GitMaterials(e).value| <= 1
    ensures var r := SetGitMaterial(e, m).value;
      && GitMaterials(r) == Ok([M.Normalize(m)])
      && Filter(MaterialsOf(r).value, Not(IsGitMaterial)) == Filter(MaterialsOf(e).value, Not(IsGitMaterial))
  {
    var r := AddMaterial(WithoutMaterialsTagged(e, "git"), m);
    assert SetGitMaterial(e, m) == Ok(r);
    assert MaterialsOf(r).Ok?
      && Filter(MaterialsOf(r).value, IsGitMaterial) == [M.Normalize(m)]
      && Filter(MaterialsOf(r).value, Not(IsGitMaterial)) == Filter(MaterialsOf(e).value, Not(IsGitMaterial)) by {
      GitKind();
      ReplaceKindReads(e, "git", IsGitMaterial, m);
    }
    assert GitMaterials(r) == Ok([M.Normalize(m)]);
  }

  /** `package_material`: the one package material; raises when there is none or more than one. */
  function PackageMaterial(e: Element): (r: Result<M.Material>)
    ensures r.Ok? <==> PackageMaterials(e).Ok? && |PackageMaterials(e).value| == 1
    ensures r.Ok? ==> r.value == PackageMaterials(e).value[0] && r.value.PackageMaterial?
  {
    var packages :- PackageMaterials(e);
    if |packages| == 0 then Err("pipeline has no package")
    else if |packages| > 1 then Err("pipeline has more than one package")
    else Ok(packages[0])
  }

  /** `has_single_package_material` */
  function HasSinglePackageMaterial(e: Element): (r: Result<bool>)
    ensures r.Ok? <==> MaterialsOf(e).Ok?
    ensures r == Ok(true) <==> PackageMaterial(e).Ok?
  {
    var packages :- PackageMaterials(e);
    Ok(|packages| == 1)
  }

  /** `git_url`: the url of the one git material. */
  function GitUrl(e: Element): (r: Result<string>)
    ensures r.Ok? <==> GitMaterial(e).Ok?
  {
    var m :- GitMaterial(e);
    Ok(m.url)
  }

  /** `git_branch`: the branch of the one git material, "master" when it has none. */
  function GitBranch(e: Element): (r: Result<string>)
    ensures r.Ok? <==> GitMaterial(e).Ok?
  {
    var m :- GitMaterial(e);
    Ok(M.Branch(m))
  }

  /** `set_git_url(url)`: `set_git_material(GitMaterial(url))`. */
  function SetGitUrl(e: Element, url: string): (r: Result<Element>)
    ensures r.Ok? <==> GitMaterials(e).Ok? && |GitMaterials(e).value| <= 1
  {
    SetGitMaterial(e, M.PlainGit(url))
  }

  /** After `set_git_url(url)` the pipeline's git url is `url`, on master, and no other
      material changed. */
  lemma {:induction false} SetGitUrlReads(e: Element, url: string)
    requires GitMaterials(e).Ok? && |GitMaterials(e).value| <= 1
    ensures var r := SetGitUrl(e, url).value;
      && GitUrl(r) == Ok(url) && GitBranch(r) == Ok("master")
      && Filter(MaterialsOf(r).value, Not(IsGitMaterial)) == Filter(MaterialsOf(e).value, Not(IsGitMaterial))
  {
    SetGitMaterialReads(e, M.PlainGit(url));
  }

  /** `set_package_ref(ref)`: `set_package_material(PackageMaterial(ref))`. */
  function SetPackageRef(e: Element, ref: string): (r: Result<Element>)
    ensures r.Ok? <==> PackageMaterials(e).Ok? && |PackageMaterials(e).value| <= 1
  {
    SetPackageMaterial(e, M.PackageMaterial(Some(ref)))
  }

  /** After `set_package_ref(ref)` the one package material refers to `ref`. */
  lemma {:induction false} SetPackageRefReads(e: Element, ref: string)
    requires PackageMaterials(e).Ok? && |PackageMaterials(e).value| <= 1
    ensures PackageMaterial(SetPackageRef(e, ref).value) == Ok(M.PackageMaterial(Some(ref)))
  {
    SetPackageMaterialReads(e, M.PackageMaterial(Some(ref)));
  }

  /** `package_material` as written: it reads `package_materials`, which raises once there
      is any material; when it reads, the list is empty and there is no package to give. */
  function PackageMaterialAsWritten(e: Element): (r: Result<M.Material>)
    ensures r.Err?
  {
    var _ :- PackageMaterialsAsWritten(e);
    Err("pipeline has no package")
  }

  /** `has_single_package_material` as written: it reads only for a pipeline without
      materials, and then says no. */
  function HasSinglePackageMaterialAsWritten(e: Element): (r: Result<bool>)
    ensures r.Ok? <==> MaterialsOf(e) == Ok([])
    ensures r.Ok? ==> !r.value
  {
    var packages :- PackageMaterialsAsWritten(e);
    Ok(|packages| == 1)
  }

  /** `set_package_ref(ref)` as written: it succeeds only for a pipeline without materials. */
  function SetPackageRefAsWritten(e: Element, ref: string): (r: Result<Element>)
    ensures r.Ok? <==> MaterialsOf(e) == Ok([])
  {
    SetPackageMaterialAsWritten(e, M.PackageMaterial(Some(ref)))
  }

  /** Where the as-written package reads succeed, on a pipeline without materials, they
      agree with the corrected ones: no single package, and setting the ref gives the same
      pipeline. */
  lemma {:induction false} PackageReadsAgree(e: Element, ref: string)
    requires MaterialsOf(e) == Ok([])
    ensures PackageMaterials(e) == PackageMaterialsAsWritten(e) == Ok([])
    ensures HasSinglePackageMaterialAsWritten(e) == HasSinglePackageMaterial(e) == Ok(false)
    ensures SetPackageRefAsWritten(e, ref) == SetPackageRef(e, ref)
  {
    assert PackageMaterials(e) == Ok([]);
  }

  /** As written, `set_package_ref(ref)` followed by `package_material` always raises:
      after the set there is a material, so `package_materials` raises. The corrected pair
      reads the ref back (`SetPackageRefReads`). */
  lemma {:induction false} SetPackageRefAsWrittenNeverReads(e: Element, ref: string)
    requires SetPackageRefAsWritten(e, ref).Ok?
    ensures var r := SetPackageRefAsWritten(e, ref).value;
      && MaterialsOf(r).Ok? && MaterialsOf(r).value != []
      && PackageMaterialsAsWritten(r).Err? && HasSinglePackageMaterialAsWritten(r).Err?
      && PackageMaterial(r) == Ok(M.PackageMaterial(Some(ref)))
  {
    PackageReadsAgree(e, ref);
    SetPackageRefReads(e, ref);
    var r := SetPackageRef(e, ref).value;
    assert PackageMaterials(r).value != [];
  }

  /** After `set_package_material(m)` the pipeline has exactly one package material. */
  lemma {:induction false} SetPackageMaterialReads(e: Element, m: M.Material)
    requires m.PackageMaterial?
    requires PackageMaterials(e).Ok? && |PackageMaterials(e).value| <= 1
    ensures var r := SetPackageMaterial(e, m).value;
      && PackageMaterials(r) == Ok([M.Normalize(m)])
      && Filter(MaterialsOf(r).value, Not(IsPackageMaterial)) == Filter(MaterialsOf(e).value, Not(IsPackageMaterial))
  {
    var r := AddMaterial(WithoutMaterialsTagged(e, "package"), m);
    assert SetPackageMaterial(e, m) == Ok(r);
    assert MaterialsOf(r).Ok?
      && Filter(MaterialsOf(r).value, IsPackageMaterial) == [M.Normalize(m)]
      && Filter(MaterialsOf(r).value, Not(IsPackageMaterial)) == Filter(MaterialsOf(e).value, Not(IsPackageMaterial)) by {
      PackageKind();
      ReplaceKindReads(e, "package", IsPackageMaterial, m);
    }
    assert PackageMaterials(r) == Ok([M.Normalize(m)]);
  }

  lemma {:induction false} ReplaceKindReads(e: Element, tag: string, kind: M.Material -> bool, m: M.Material)
    requires MaterialsOf(e).Ok? && kind(m)
    requires forall c :: M.Decode(c).Ok? ==> kind(M.Decode(c).value) == (c.tag == tag)
    requires forall x :: kind(M.Normalize(x)) == kind(x)
    ensures var r := AddMaterial(WithoutMaterialsTagged(e, tag), m);
      && MaterialsOf(r).Ok?
      && Filter(MaterialsOf(r).value, kind) == [M.Normalize(m)]
      && Filter(MaterialsOf(r).value, Not(kind)) == Filter(MaterialsOf(e).value, Not(kind))
  {
    var ms := MaterialsOf(e).value;
    var e1 := WithoutMaterialsTagged(e, tag);
    WithoutMaterialsReads(e, tag, kind);
    AddMaterialReads(e1, m);
    var rest := Filter(ms, Not(kind));
    FilterAppend(rest, [M.Normalize(m)], kind);
    FilterAppend(rest, [M.Normalize(m)], Not(kind));
    FilterDropsAll(rest, kind);
    FilterKeepsAll(rest, Not(kind));
  }

  /** An existing git material makes `package_materials` raise as written; with
      `is_package` defined it reads no package material. */
  lemma {:induction false} PackageMaterialsAsWrittenFailsOnGit(name: string, url: string)
    ensures PackageMaterialsAsWritten(AddMaterial(BarePipeline(name), M.PlainGit(url))).Err?
    ensures PackageMaterials(AddMaterial(BarePipeline(name), M.PlainGit(url))) == Ok([])
  {
    var e := BarePipeline(name);
    assert MaterialsOf(e) == Ok([]);
    AddMaterialReads(e, M.PlainGit(url));
  }

  /** `remove_materials()`: drops every `materials` child. */
  function RemoveMaterials(e: Element): (r: Element)
    ensures MaterialsOf(r) == Ok([])
    ensures FindAll(r, "materials") == []
    ensures forall t :: t != "materials" ==> FindAll(r, t) == FindAll(e, t)
  {
    var r := RemoveAllChildren(Some(e), Some("materials")).value;
    forall t | t != "materials" ensures FindAll(r, t) == FindAll(e, t) {
      RemoveAllChildrenKeepsTag(e, "materials", t);
    }
    FindIsFirstOfFindAll(r, "materials");
    r
  }

  // ---------------------------------------------------------------------------
  // Parameters

  /** The `parameters` dictionary built from `param` children in order: a later child
      with the same name overwrites an earlier one; a child without a name raises. */
  function ParamsOf(cs: seq<Element>): (r: Result<map<string, Option<string>>>)
    ensures r.Ok? <==> forall i :: 0 <= i < |cs| ==> "name" in cs[i].attrs
    decreases |cs|
  {
    if |cs| == 0 then Ok(map[])
    else
      var m :- ParamsOf(cs[..|cs| - 1]);
      var name :- Required(cs[|cs| - 1].attrs, "name");
      Ok(m[name := cs[|cs| - 1].text])
  }

  /** `Pipeline.parameters` */
  function Parameters(e: Element): Result<map<string, Option<string>>> {
    ParamsOf(PossiblyMissingFindAll(PossiblyMissingChild(Some(e), "params"), "param"))
  }

  /** One item of `ensure_parameters`: find-or-create the `param` child by name and set its text. */
  function EnsureParam(p: Element, name: string, value: string): (r: Result<Element>)
    ensures r.Ok? <==> AllCarry(p, "param", "name")
    ensures r.Ok? ==> r.value.tag == p.tag && AllCarry(r.value, "param", "name")
  {
    var k :- EnsureChildWithAttribute(p, "param", "name", name);
    EnsureChildWithAttributeCarries(p, "param", "name", name);
    PutCarries(k, SetText(Child(k), Some(value)), "param", "name");
    Ok(Put(k, SetText(Child(k), Some(value))))
  }

  /** The loop of `ensure_parameters`; it raises `KeyError` on the first item exactly
      when some `param` lacks a name, and never afterwards. */
  function EnsureParamsIn(p: Element, params: seq<(string, string)>): (r: Result<Element>)
    ensures r.Ok? <==> |params| == 0 || AllCarry(p, "param", "name")
    ensures r.Ok? ==> r.value.tag == p.tag
    decreases |params|
  {
    if |params| == 0 then Ok(p)
    else
      var p1 :- EnsureParam(p, params[0].0, params[0].1);
      EnsureParamsIn(p1, params[1..])
  }

  /** `ensure_parameters(parameters)`, with the dictionary given in its iteration order. */
  function EnsureParameters(e: Element, params: seq<(string, string)>): (r: Result<Element>)
    ensures r.Ok? <==> |params| == 0 || AllCarry(Child(EnsureChild(e, "params")), "param", "name")
    ensures r.Ok? ==> r.value.tag == e.tag && r.value.attrs == e.attrs
  {
    var h := EnsureChild(e, "params");
    var c :- EnsureParamsIn(Child(h), params);
    Ok(Put(h, c))
  }

  /** Every `param` carries a name and no two share one. */
  predicate NamesDistinct(cs: seq<Element>) {
    && (forall i :: 0 <= i < |cs| ==> "name" in cs[i].attrs)
    && (forall i, j :: 0 <= i < j < |cs| ==> cs[i].attrs["name"] != cs[j].attrs["name"])
  }

  /** The `param` children of a `params` element. */
  function ParamElements(p: Element): seq<Element> {
    FindAll(p, "param")
  }

  /** Reference meaning of `ensure_parameters`: the dictionary with each pair set in turn. */
  function SetAll(m: map<string, Option<string>>, params: seq<(string, string)>): map<string, Option<string>>
    decreases |params|
  {
    if |params| == 0 then m else SetAll(m[params[0].0 := Some(params[0].1)], params[1..])
  }

  /** The dictionary reading of a list of `param` elements with one appended. */
  lemma {:induction false} ParamsOfAppend(cs: seq<Element>, x: Element)
    requires ParamsOf(cs).Ok? && "name" in x.attrs
    ensures ParamsOf(cs + [x]) == Ok(ParamsOf(cs).value[x.attrs["name"] := x.text])
  {
    assert (cs + [x])[..|cs|] == cs;
  }

  /** Replacing the one `param` of a name by another of that name replaces its value. */
  lemma {:induction false} ParamsOfUpdate(cs: seq<Element>, j: nat, c: Element)
    requires NamesDistinct(cs) && j < |cs|
    requires "name" in c.attrs && c.attrs["name"] == cs[j].attrs["name"]
    ensures ParamsOf(cs[j := c]) == Ok(ParamsOf(cs).value[c.attrs["name"] := c.text])
    decreases |cs|
  {
    var n := |cs| - 1;
    var name := c.attrs["name"];
    var cs' := cs[j := c];
    var last := cs[n].attrs["name"];
    var before := ParamsOf(cs[..n]).value;
    assert ParamsOf(cs) == Ok(before[last := cs[n].text]);
    if j == n {
      assert cs'[..n] == cs[..n];
      assert last == name;
      assert ParamsOf(cs') == Ok(before[name := c.text]);
      assert before[last := cs[n].text][name := c.text] == before[name := c.text];
    } else {
      assert cs'[..n] == cs[..n][j := c];
      assert NamesDistinct(cs[..n]);
      ParamsOfUpdate(cs[..n], j, c);
      assert last != name;
      assert ParamsOf(cs') == Ok(before[name := c.text][last := cs[n].text]);
      assert before[name := c.text][last := cs[n].text] == before[last := cs[n].text][name := c.text];
    }
  }

  /** The dictionary has a key for every `param` name, and its value is the text of the
      last `param` of that name. */
  lemma {:induction false} ParamsOfReads(cs: seq<Element>, i: nat)
    requires (forall j :: 0 <= j < |cs| ==> "name" in cs[j].attrs) && i < |cs|
    requires forall j :: i < j < |cs| ==> cs[j].attrs["name"] != cs[i].attrs["name"]
    ensures cs[i].attrs["name"] in ParamsOf(cs).value
    ensures ParamsOf(cs).value[cs[i].attrs["name"]] == cs[i].text
    decreases |cs|
  {
    var n := |cs| - 1;
    if i < n {
      ParamsOfReads(cs[..n], i);
    }
  }

  /** One item of `ensure_parameters` sets that entry of the dictionary and keeps names distinct. */
  lemma {:induction false} EnsureParamReads(p: Element, name: string, value: string)
    requires NamesDistinct(ParamElements(p))
    ensures EnsureParam(p, name, value).Ok?
    ensures NamesDistinct(ParamElements(EnsureParam(p, name, value).value))
    ensures ParamsOf(ParamElements(EnsureParam(p, name, value).value))
      == Ok(ParamsOf(ParamElements(p)).value[name := Some(value)])
  {
    ParamsCarryNames(p);
    if FirstIndex(p.children, HasAttrValue("param", "name", name)).None? {
      EnsureNewParamReads(p, name, value);
    } else {
      EnsureOldParamReads(p, name, value);
    }
  }

  lemma {:induction false} ParamsCarryNames(p: Element)
    requires NamesDistinct(ParamElements(p))
    ensures AllCarry(p, "param", "name")
  {
    FilterMembers(p.children, IsTag("param"));
    forall i | 0 <= i < |p.children| && p.children[i].tag == "param"
      ensures "name" in p.children[i].attrs
    {
      assert p.children[i] in ParamElements(p);
    }
  }

  lemma {:induction false} EnsureNewParamReads(p: Element, name: string, value: string)
    requires NamesDistinct(ParamElements(p)) && AllCarry(p, "param", "name")
    requires FirstIndex(p.children, HasAttrValue("param", "name", name)).None?
    ensures NamesDistinct(ParamElements(EnsureParam(p, name, value).value))
    ensures ParamsOf(ParamElements(EnsureParam(p, name, value).value))
      == Ok(ParamsOf(ParamElements(p)).value[name := Some(value)])
  {
    var ps := ParamElements(p);
    var k := EnsureChildWithAttribute(p, "param", "name", name).value;
    var c := SetText(Child(k), Some(value));
    assert ParamElements(Put(k, c)) == ps + [c] by {
      assert Put(k, c).children == p.children + [c];
      FilterAppend(p.children, [c], IsTag("param"));
    }
    assert forall i :: 0 <= i < |ps| ==> ps[i].attrs["name"] != name by {
      FilterMembers(p.children, IsTag("param"));
      forall i | 0 <= i < |ps| ensures ps[i].attrs["name"] != name {
        assert ps[i] in p.children;
      }
    }
    NamesDistinctAppend(ps, c);
    ParamsOfAppend(ps, c);
  }

  /** Appending an element with a new name keeps the names distinct. */
  lemma NamesDistinctAppend(cs: seq<Element>, x: Element)
    requires NamesDistinct(cs) && "name" in x.attrs
    requires forall i :: 0 <= i < |cs| ==> cs[i].attrs["name"] != x.attrs["name"]
    ensures NamesDistinct(cs + [x])
  {
  }

  lemma {:induction false} EnsureOldParamReads(p: Element, name: string, value: string)
    requires NamesDistinct(ParamElements(p)) && AllCarry(p, "param", "name")
    requires FirstIndex(p.children, HasAttrValue("param", "name", name)).Some?
    ensures NamesDistinct(ParamElements(EnsureParam(p, name, value).value))
    ensures ParamsOf(ParamElements(EnsureParam(p, name, value).value))
      == Ok(ParamsOf(ParamElements(p)).value[name := Some(value)])
  {
    var ps := ParamElements(p);
    var k := EnsureChildWithAttribute(p, "param", "name", name).value;
    var c := SetText(Child(k), Some(value));
    var i := k.index;
    FilterUpdateAt(p.children, i, c, IsTag("param"));
    var j := |Filter(p.children[..i], IsTag("param"))|;
    assert ParamElements(Put(k, c)) == ps[j := c];
    ParamsOfUpdate(ps, j, c);
  }

  /** The items of `ensure_parameters` in turn set their entries, later ones last. */
  lemma {:induction false} EnsureParamsInReads(p: Element, params: seq<(string, string)>)
    requires NamesDistinct(ParamElements(p))
    ensures EnsureParamsIn(p, params).Ok?
    ensures NamesDistinct(ParamElements(EnsureParamsIn(p, params).value))
    ensures ParamsOf(ParamElements(EnsureParamsIn(p, params).value))
      == Ok(SetAll(ParamsOf(ParamElements(p)).value, params))
    decreases |params|
  {
    if |params| > 0 {
      EnsureParamReads(p, params[0].0, params[0].1);
      EnsureParamsInReads(EnsureParam(p, params[0].0, params[0].1).value, params[1..]);
    }
  }

  /** `ensure_parameters(parameters)` sets every given parameter and keeps the others,
      provided the parameters already there have distinct names. */
  lemma {:induction false} EnsureParametersReads(e: Element, params: seq<(string, string)>)
    requires NamesDistinct(PossiblyMissingFindAll(PossiblyMissingChild(Some(e), "params"), "param"))
    ensures EnsureParameters(e, params).Ok?
    ensures Parameters(EnsureParameters(e, params).value) == Ok(SetAll(Parameters(e).value, params))
  {
    var h := EnsureChild(e, "params");
    assert ParamElements(Child(h)) == PossiblyMissingFindAll(PossiblyMissingChild(Some(e), "params"), "param");
    EnsureParamsInReads(Child(h), params);
    var c := EnsureParamsIn(Child(h), params).value;
    EnsureChildPutFinds(e, "params", c);
  }

  /** `without_any_parameters()`: empties the first `params` child, when there is one. */
  function WithoutAnyParameters(e: Element): (r: Element)
    ensures Parameters(r) == Ok(map[])
    ensures Find(r, "params").Some? <==> Find(e, "params").Some?
  {
    var f := (c: Element) => c.(children := []);
    if Find(e, "params").Some? then
      ModifyChildIsPut(e, "params", f);
      EnsureChildPutFinds(e, "params", f(Find(e, "params").value));
      ModifyChild(e, "params", f)
    else
      ModifyChild(e, "params", f)
  }

  // ---------------------------------------------------------------------------
  // Stages

  /** `Pipeline.stages`: every `stage` child. */
  function StagesOf(e: Element): seq<Element> {
    FindAll(e, "stage")
  }

  /** `ensure_stage(name)`: find-or-create by name; gives the pipeline and the stage. */
  function EnsureStage(e: Element, name: string): (r: Result<(Element, Element)>)
    ensures r.Ok? <==> AllCarry(e, "stage", "name")
    ensures r.Ok? ==> HasAttrValue("stage", "name", name)(r.value.1) && r.value.1 in r.value.0.children
    ensures r.Ok? ==> r.value.0.attrs == e.attrs
  {
    var k :- EnsureChildWithAttribute(e, "stage", "name", name);
    Ok((k.parent, Child(k)))
  }

  lemma {:induction false} EnsureStageIdempotent(e: Element, name: string)
    requires EnsureStage(e, name).Ok?
    ensures EnsureStage(EnsureStage(e, name).value.0, name) == EnsureStage(e, name)
  {
    EnsureChildWithAttributeIdempotent(e, "stage", "name", name);
  }

  function IsStageNamed(name: string): Element -> bool {
    HasAttrValue("stage", "name", name)
  }

  /** `ensure_removal_of_stage(name)`: removes every stage with that name; reading the
      name of a stage without one raises. `Xml.RemoveKeyedReads` states what is left. */
  function EnsureRemovalOfStage(e: Element, name: string): (r: Result<Element>)
    ensures r.Ok? <==> AllCarry(e, "stage", "name")
    ensures r.Ok? ==> r.value.attrs == e.attrs
  {
    RemoveKeyed(e, "stage", "name", name)
  }

  /** A stage other than the named one. */
  function OtherStage(name: string): Element -> bool {
    (c: Element) => c.tag == "stage" && "name" in c.attrs && c.attrs["name"] != name
  }

  /** `ensure_initial_stage(name)`: ensures the stage, then moves every other stage to the
      end in its order; gives the pipeline and the stage. */
  function EnsureInitialStage(e: Element, name: string): (r: Result<(Element, Element)>)
    ensures r.Ok? <==> AllCarry(e, "stage", "name")
  {
    var (e1, stage) :- EnsureStage(e, name);
    Ok((e1.(children := MoveToEnd(e1.children, OtherStage(name))), stage))
  }

  /** Afterwards the stages are the named ones, in order, then the others, in order; the
      stage the call gives is the first stage; the stage count grows by one exactly when
      no stage had the name. */
  lemma {:induction false} EnsureInitialStageReads(e: Element, name: string)
    requires EnsureInitialStage(e, name).Ok?
    ensures var (r, stage) := EnsureInitialStage(e, name).value;
      var e1 := EnsureStage(e, name).value.0;
      && StagesOf(r) == Filter(e1.children, IsStageNamed(name)) + Filter(e1.children, OtherStage(name))
      && |StagesOf(r)| > 0 && stage == StagesOf(r)[0] && IsStageNamed(name)(stage)
      && |StagesOf(r)| == |StagesOf(e)| + (if Filter(e.children, IsStageNamed(name)) == [] then 1 else 0)
  {
    var k := EnsureChildWithAttribute(e, "stage", "name", name).value;
    var cs := k.parent.children;
    var p := IsStageNamed(name);
    assert forall x :: x in cs && x.tag == "stage" ==> "name" in x.attrs by {
      if FirstIndex(e.children, p).None? {
        assert cs == e.children + [Element("stage", map["name" := name], None, [])];
      }
    }
    StagesAfterMove(cs, name);
    EnsuredStageIsFirst(e, name);
    StageCount(e, name);
  }

  /** Moving the other stages to the end lists the stages as the named ones then the others. */
  lemma {:induction false} StagesAfterMove(cs: seq<Element>, name: string)
    requires forall x :: x in cs && x.tag == "stage" ==> "name" in x.attrs
    ensures Filter(MoveToEnd(cs, OtherStage(name)), IsTag("stage")) == Filter(cs, IsStageNamed(name)) + Filter(cs, OtherStage(name))
    ensures |Filter(cs, IsStageNamed(name))| + |Filter(cs, OtherStage(name))| == |Filter(cs, IsTag("stage"))|
  {
    var p := IsStageNamed(name);
    var q := OtherStage(name);
    var s := IsTag("stage");
    FilterAppend(Filter(cs, Not(q)), Filter(cs, q), s);
    FilterFilter(cs, Not(q), s, p);
    FilterFilter(cs, q, s, q);
    StagesSplit(cs, name);
  }

  /** The stages split into the named ones and the others. */
  lemma {:induction false} StagesSplit(cs: seq<Element>, name: string)
    requires forall x :: x in cs && x.tag == "stage" ==> "name" in x.attrs
    ensures |Filter(cs, IsStageNamed(name))| + |Filter(cs, OtherStage(name))| == |Filter(cs, IsTag("stage"))|
  {
    var p := IsStageNamed(name);
    var q := OtherStage(name);
    var s := IsTag("stage");
    var ss := Filter(cs, s);
    FilterFilter(cs, s, p, p);
    FilterFilter(cs, s, q, q);
    FilterMembers(cs, s);
    FilterSplitMultiset(ss, p, q);
    assert |multiset(Filter(ss, p))| + |multiset(Filter(ss, q))| == |multiset(ss)|;
  }

  /** The stage `ensure_stage` gives is the first stage with the name. */
  lemma {:induction false} EnsuredStageIsFirst(e: Element, name: string)
    requires EnsureStage(e, name).Ok?
    ensures var (e1, stage) := EnsureStage(e, name).value;
      Filter(e1.children, IsStageNamed(name)) != [] && Filter(e1.children, IsStageNamed(name))[0] == stage
  {
    var k := EnsureChildWithAttribute(e, "stage", "name", name).value;
    var p := IsStageNamed(name);
    var cs := k.parent.children;
    if FirstIndex(e.children, p).None? {
      assert forall j :: 0 <= j < k.index ==> cs[j] == e.children[j];
    }
    FirstIndexIs(cs, p, k.index);
    FirstIndexIsFilterHead(cs, p);
  }

  /** `ensure_stage` adds a stage exactly when none has the name. */
  lemma {:induction false} StageCount(e: Element, name: string)
    requires EnsureStage(e, name).Ok?
    ensures |StagesOf(EnsureStage(e, name).value.0)| == |StagesOf(e)| + (if Filter(e.children, IsStageNamed(name)) == [] then 1 else 0)
  {
    var p := IsStageNamed(name);
    FirstIndexIsFilterHead(e.children, p);
    if FirstIndex(e.children, p).None? {
      FilterAppend(e.children, [Element("stage", map["name" := name], None, [])], IsTag("stage"));
    }
  }

  // ---------------------------------------------------------------------------
  // Timer

  predicate HasTimer(e: Element) {
    Find(e, "timer").Some?
  }

  /** `timer`: the text of the first `timer` child; raises when there is none. */
  function Timer(e: Element): (r: Result<Option<string>>)
    ensures r.Ok? <==> HasTimer(e)
  {
    if HasTimer(e) then Ok(Find(e, "timer").value.text) else Err("pipeline has no timer")
  }

  /** `timer_triggers_only_on_changes`: with no timer the attribute lookup raises. */
  function TimerTriggersOnlyOnChanges(e: Element): (r: Result<bool>)
    ensures r.Ok? <==> HasTimer(e)
    ensures r == Ok(true) <==> HasTimer(e) && HasAttrValue("timer", "onlyOnChanges", "true")(Find(e, "timer").value)
  {
    match Find(e, "timer")
    case None => Err("AttributeError: 'NoneType' object has no attribute 'attrib'")
    case Some(t) => Ok(Get(t.attrs, "onlyOnChanges") == Some("true"))
  }

  /** `set_timer(timer, only_on_changes)` */
  function SetTimer(e: Element, timer: string, onlyOnChanges: bool): (r: Result<Element>)
    ensures !onlyOnChanges ==> r.Ok?
    ensures onlyOnChanges ==> (r.Ok? <==> AllCarry(e, "timer", "onlyOnChanges"))
    ensures r.Ok? ==> r.value.attrs == e.attrs
  {
    if onlyOnChanges then
      var k :- EnsureChildWithAttribute(e, "timer", "onlyOnChanges", "true");
      Ok(Put(k, SetText(Child(k), Some(timer))))
    else
      var h := EnsureChild(e, "timer");
      Ok(Put(h, SetText(Child(h), Some(timer))))
  }

  /** The timer reads back. With `only_on_changes` it is the first timer only when the
      first timer already carried it (or there was none), so then the flag reads back
      too; without it the flag of the first timer is kept. */
  lemma {:induction false} SetTimerReads(e: Element, timer: string, onlyOnChanges: bool)
    requires SetTimer(e, timer, onlyOnChanges).Ok?
    requires onlyOnChanges ==> !HasTimer(e) || HasAttrValue("timer", "onlyOnChanges", "true")(Find(e, "timer").value)
    ensures Timer(SetTimer(e, timer, onlyOnChanges).value) == Ok(Some(timer))
    ensures onlyOnChanges ==> TimerTriggersOnlyOnChanges(SetTimer(e, timer, onlyOnChanges).value) == Ok(true)
    ensures !onlyOnChanges && HasTimer(e) ==>
      TimerTriggersOnlyOnChanges(SetTimer(e, timer, onlyOnChanges).value) == TimerTriggersOnlyOnChanges(e)
  {
    if onlyOnChanges {
      var k := EnsureChildWithAttribute(e, "timer", "onlyOnChanges", "true").value;
      EnsureChildWithAttributePutFinds(e, "timer", "onlyOnChanges", "true", SetText(Child(k), Some(timer)));
    } else {
      var h := EnsureChild(e, "timer");
      EnsureChildPutFinds(e, "timer", SetText(Child(h), Some(timer)));
    }
  }

  /** `remove_timer()` */
  function RemoveTimer(e: Element): (r: Element)
    ensures !HasTimer(r) && Timer(r).Err?
    ensures forall t :: t != "timer" ==> FindAll(r, t) == FindAll(e, t)
  {
    var r := RemoveAllChildren(Some(e), Some("timer")).value;
    forall t | t != "timer" ensures FindAll(r, t) == FindAll(e, t) {
      RemoveAllChildrenKeepsTag(e, "timer", t);
    }
    FindIsFirstOfFindAll(r, "timer");
    r
  }

  // ---------------------------------------------------------------------------
  // Emptying

  /** `make_empty()`: no children and no label template; every other attribute kept. */
  function MakeEmpty(e: Element): (r: Element)
    ensures r.children == [] && !HasLabelTemplate(r)
    ensures r.tag == e.tag && r.text == e.text
    ensures forall k :: k in e.attrs && k != "labeltemplate" ==> k in r.attrs && r.attrs[k] == e.attrs[k]
    ensures r.attrs.Keys <= e.attrs.Keys
  {
    RemoveAttribute(RemoveAllChildren(Some(e), None), "labeltemplate").value
  }
  /** Emptying an emptied pipeline changes nothing. */
  lemma {:induction false} MakeEmptyIdempotent(e: Element)
    ensures MakeEmpty(MakeEmpty(e)) == MakeEmpty(e)
  {
    var p := MakeEmpty(e);
    assert MakeEmpty(p).attrs == p.attrs;
  }


  // ---------------------------------------------------------------------------
  // Reordering to please GoCD

  /** The tags `reorder_elements_to_please_go` moves to the end, in turn. */
  const PipelineTags: seq<string> := ["params", "timer", "environmentvariables", "materials", "stage"]

  lemma PipelineTagsDistinct()
    ensures Distinct(PipelineTags)
  {
  }

  /** Every `stage` child reordered; other children untouched. */
  function ReorderStageChild(c: Element): (r: Element)
    ensures r.tag == c.tag
  {
    if c.tag == "stage" then Stages.Reorder(c) else c
  }

  /** A `materials` element holding the encodings of `ms` in order. */
  function MaterialsElement(ms: seq<M.Material>): Element {
    Element("materials", map[], None, Map(ms, M.Encode))
  }

  /** `__add_material` for each material in turn (written as a left fold: the last one is added last). */
  function AddMaterials(e: Element, ms: seq<M.Material>): (r: Element)
    ensures r.tag == e.tag && r.attrs == e.attrs && r.text == e.text
    decreases |ms|
  {
    if |ms| == 0 then e else AddMaterial(AddMaterials(e, ms[..|ms| - 1]), ms[|ms| - 1])
  }

  /** With the only `materials` child last, a material goes into it. */
  lemma {:induction false} AddMaterialToLast(e: Element, xs: seq<M.Material>, m: M.Material)
    requires Find(e, "materials").None?
    ensures AddMaterial(Append(e, MaterialsElement(xs)), m) == Append(e, MaterialsElement(xs + [m]))
  {
    var e1 := Append(e, MaterialsElement(xs));
    var h := EnsureChild(e1, "materials");
    assert h == Ensured(e1, |e.children|) by {
      assert FirstIndex([MaterialsElement(xs)], IsTag("materials")) == Some(0);
      FirstIndexAppendNone(e.children, [MaterialsElement(xs)], IsTag("materials"));
    }
    var c := M.AppendTo(m, MaterialsElement(xs));
    assert c == MaterialsElement(xs + [m]) by {
      MapAppend(xs, [m], M.Encode);
      assert Map([m], M.Encode) == [M.Encode(m)];
    }
    assert AddMaterial(e1, m) == e.(children := (e.children + [MaterialsElement(xs)])[|e.children| := c]);
    UpdateLast(e.children, MaterialsElement(xs), c);
  }

  /** Adding materials one by one to a pipeline without a `materials` child appends one
      `materials` child holding them all. */
  lemma {:induction false} AddMaterialsFresh(e: Element, ms: seq<M.Material>)
    requires Find(e, "materials").None?
    ensures AddMaterials(e, ms) == if |ms| == 0 then e else Append(e, MaterialsElement(ms))
    decreases |ms|
  {
    if |ms| == 1 {
      AddFirstMaterial(e, ms);
    } else if |ms| > 1 {
      var n := |ms| - 1;
      AddMaterialsFresh(e, ms[..n]);
      AddMaterialToLast(e, ms[..n], ms[n]);
      SplitLast(ms);
    }
  }

  lemma {:induction false} AddFirstMaterial(e: Element, ms: seq<M.Material>)
    requires Find(e, "materials").None? && |ms| == 1
    ensures AddMaterials(e, ms) == Append(e, MaterialsElement(ms))
  {
    assert ms[..0] == [];
    assert Map(ms, M.Encode) == [M.Encode(ms[0])];
  }

  /** The `materials` children a reorder leaves: one holding `ms` when there are any. */
  function Refill(ms: seq<M.Material>): seq<Element> {
    if |ms| == 0 then [] else [MaterialsElement(ms)]
  }

  /** `Pipeline.reorder_elements_to_please_go`: the materials are read (which may raise),
      every `materials` child is dropped and the materials are added back sorted; then
      params, timer, environment variables, materials and stages go to the end in that
      order, and every stage is reordered. */
  function ReorderPipeline(e: Element): (r: Result<Element>)
    ensures r.Ok? <==> MaterialsOf(e).Ok?
    ensures r.Ok? ==> r.value.tag == e.tag && r.value.attrs == e.attrs && r.value.text == e.text
  {
    var ms :- MaterialsOf(e);
    var e1 := AddMaterials(RemoveMaterials(e), M.SortMaterials(ms));
    Ok(e1.(children := Map(MoveTagsToEnd(e1.children, PipelineTags), ReorderStageChild)))
  }

  /** The children after a reorder: the children of other tags in their order, then the
      groups of params, timer, environment variables, the one refilled `materials` child
      and the reordered stages. */
  lemma {:induction false} ReorderPipelineShape(e: Element)
    requires MaterialsOf(e).Ok?
    ensures ReorderPipeline(e).value.children ==
      Map(Grouped(Filter(e.children, NotTag("materials")) + Refill(M.SortMaterials(MaterialsOf(e).value)), PipelineTags), ReorderStageChild)
  {
    var sorted := M.SortMaterials(MaterialsOf(e).value);
    var e0 := RemoveMaterials(e);
    assert e0.children == Filter(e.children, NotTag("materials"));
    FindIsFirstOfFindAll(e0, "materials");
    var e1 := AddMaterials(e0, sorted);
    AddMaterialsFresh(e0, sorted);
    assert e1.children == e0.children + Refill(sorted);
    PipelineTagsDistinct();
    MoveTagsToEndGroups(e1.children, PipelineTags);
    assert ReorderPipeline(e) == Ok(e1.(children := Map(MoveTagsToEnd(e1.children, PipelineTags), ReorderStageChild)));
  }

  /** After a reorder the pipeline reads back its materials sorted by `cmp_materials`, each
      in the form it reads back in. */
  lemma {:induction false} ReorderPipelineMaterials(e: Element)
    requires MaterialsOf(e).Ok?
    ensures MaterialsOf(ReorderPipeline(e).value) == Ok(Map(M.SortMaterials(MaterialsOf(e).value), M.Normalize))
  {
    var sorted := M.SortMaterials(MaterialsOf(e).value);
    var r := ReorderPipeline(e).value;
    var ys := Filter(e.children, NotTag("materials")) + Refill(sorted);
    ReorderPipelineShape(e);
    PipelineTagsDistinct();
    assert Filter(ys, IsTag("materials")) == Refill(sorted) by {
      FilterMembers(e.children, NotTag("materials"));
      FilterAppend(Filter(e.children, NotTag("materials")), Refill(sorted), IsTag("materials"));
      FilterDropsAll(Filter(e.children, NotTag("materials")), IsTag("materials"));
    }
    GroupedMap(ys, PipelineTags, ReorderStageChild);
    var zs := Map(ys, ReorderStageChild);
    FilterMap(ys, ReorderStageChild, IsTag("materials"));
    GroupedFilter(zs, PipelineTags, "materials");
    FindIsFirstOfFindAll(r, "materials");
    if |sorted| == 0 {
      assert MaterialElements(r) == [];
    } else {
      assert MaterialElements(r) == Map(sorted, M.Encode);
      ReadBackEncoded(sorted);
    }
  }

  /** The encodings of materials decode to their normal forms. */
  lemma {:induction false} ReadBackEncoded(ms: seq<M.Material>)
    ensures MapResult(Map(ms, M.Encode), M.Decode) == Ok(Map(ms, M.Normalize))
  {
    var ns := Map(ms, M.Normalize);
    forall m | m in ns
      ensures M.Decode(M.Encode(m)) == Ok(m)
    {
      var i :| 0 <= i < |ms| && ns[i] == m;
      M.DecodeEncode(m);
      M.DecodeEncode(ms[i]);
      M.EncodeNormalize(ms[i]);
    }
    assert Map(ns, M.Encode) == Map(ms, M.Encode) by {
      forall i | 0 <= i < |ms| ensures M.Encode(ns[i]) == M.Encode(ms[i]) {
        M.EncodeNormalize(ms[i]);
      }
    }
    MapResultOfMap(ns, M.Encode, M.Decode);
  }

  /** Sorting the read-back materials again changes nothing. */
  lemma {:induction false} SortedStaysSorted(ms: seq<M.Material>)
    ensures M.SortMaterials(Map(M.SortMaterials(ms), M.Normalize)) == Map(M.SortMaterials(ms), M.Normalize)
    ensures Map(Map(M.SortMaterials(ms), M.Normalize), M.Encode) == Map(M.SortMaterials(ms), M.Encode)
  {
    var sorted := M.SortMaterials(ms);
    forall m | m in sorted ensures M.SortKey(M.Normalize(m)) == M.SortKey(m) {
      M.NormalizeKeepsKey(m);
    }
    SortByMap(sorted, M.SortKey, M.Normalize);
    SortByFacts(ms, M.SortKey);
    SortBySorted(sorted, M.SortKey);
    forall i | 0 <= i < |sorted| ensures M.Encode(M.Normalize(sorted[i])) == M.Encode(sorted[i]) {
      M.EncodeNormalize(sorted[i]);
    }
  }

  lemma {:induction false} ReorderStageChildIdempotent(cs: seq<Element>)
    ensures Map(Map(cs, ReorderStageChild), ReorderStageChild) == Map(cs, ReorderStageChild)
  {
    forall c | c in cs
      ensures ReorderStageChild(ReorderStageChild(c)) == ReorderStageChild(c)
    {
      if c.tag == "stage" {
        Stages.ReorderIdempotent(c);
      }
    }
    MapIdempotent(cs, ReorderStageChild);
  }

  /** The only `materials` child left after refilling is the refilled one, also once the
      stages are reordered. */
  lemma {:induction false} RefilledMaterials(cs: seq<Element>, sorted: seq<M.Material>)
    ensures var ys := Filter(cs, NotTag("materials")) + Refill(sorted);
      Filter(Map(ys, ReorderStageChild), IsTag("materials")) == Refill(sorted)
  {
    var ys := Filter(cs, NotTag("materials")) + Refill(sorted);
    FilterMembers(cs, NotTag("materials"));
    FilterAppend(Filter(cs, NotTag("materials")), Refill(sorted), IsTag("materials"));
    FilterDropsAll(Filter(cs, NotTag("materials")), IsTag("materials"));
    FilterMap(ys, ReorderStageChild, IsTag("materials"));
  }

  /** Reordering a reordered pipeline changes nothing. */
  lemma {:induction false} ReorderPipelineIdempotent(e: Element)
    requires MaterialsOf(e).Ok?
    ensures ReorderPipeline(ReorderPipeline(e).value) == ReorderPipeline(e)
  {
    var sorted := M.SortMaterials(MaterialsOf(e).value);
    var r := ReorderPipeline(e).value;
    var ys := Filter(e.children, NotTag("materials")) + Refill(sorted);
    var zs := Map(ys, ReorderStageChild);
    PipelineTagsDistinct();
    ReorderPipelineShape(e);
    ReorderPipelineMaterials(e);
    SortedStaysSorted(MaterialsOf(e).value);
    assert Refill(M.SortMaterials(MaterialsOf(r).value)) == Refill(sorted);
    ReorderPipelineShape(r);
    GroupedMap(ys, PipelineTags, ReorderStageChild);
    assert r.children == Grouped(zs, PipelineTags);
    RefilledMaterials(e.children, sorted);
    RegroupRefilled(zs, PipelineTags, "materials", Refill(sorted));
    ReorderStageChildIdempotent(Grouped(ys, PipelineTags));
  }
}
