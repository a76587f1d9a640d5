/** Pipeline materials: the `Materials` decoder dispatching on the element tag,
    and the git, pipeline and package materials with their `append_to` encoders.

    A git material omits every attribute that is at its default: the branch when
    it is on master, the material name when there is none, `autoUpdate` unless
    polling is off, the destination when it is empty, and the `filter` element
    when there are no ignore patterns (which are otherwise written sorted).
 */
module Materials {
  import opened Wrappers
  import opened Strings
  import opened Seqs
  import opened Xml

  datatype Material =
    | GitMaterial(url: string, branch: Option<string>, materialName: Option<string>, polling: bool,
                  ignorePatterns: set<string>, destinationDirectory: Option<string>)
    | PipelineMaterial(pipelineName: string, stageName: string, materialName: Option<string>)
    | PackageMaterial(packageId: Option<string>)

  /** `is_git` */
  predicate IsGit(m: Material) {
    m.GitMaterial?
  }

  /** `GitMaterial(url)` with every option at its default. */
  function PlainGit(url: string): Material {
    GitMaterial(url, None, None, true, {}, None)
  }

  /** `is_on_master`: no branch, or the branch literally called master. */
  predicate IsOnMaster(m: Material)
    requires m.GitMaterial?
  {
    m.branch.None? || m.branch == Some("master")
  }

  /** The `branch` property of a git material. */
  function Branch(m: Material): (r: string)
    requires m.GitMaterial?
    ensures r == "master" <==> IsOnMaster(m)
    ensures !IsOnMaster(m) ==> Some(r) == m.branch
  {
    if IsOnMaster(m) then "master" else m.branch.value
  }

  /** Python truth of an optional string: neither None nor empty. */
  predicate Truthy(o: Option<string>) {
    o.Some? && o.value != ""
  }

  /** `__has_options`: some option of the git material differs from its default. */
  predicate HasOptions(m: Material)
    requires m.GitMaterial?
  {
    !IsOnMaster(m) || m.materialName.Some? || !m.polling || m.ignorePatterns != {} || Truthy(m.destinationDirectory)
  }

  /** The `<ignore pattern=…/>` children of the filter, one per pattern, sorted. */
  function IgnoreElements(patterns: seq<string>): (r: seq<Element>)
    ensures |r| == |patterns|
    ensures forall i :: 0 <= i < |r| ==> r[i] == Element("ignore", map["pattern" := patterns[i]], None, [])
  {
    if |patterns| == 0 then []
    else [Element("ignore", map["pattern" := patterns[0]], None, [])] + IgnoreElements(patterns[1..])
  }

  /** The attributes of a git material's element: the url, and each option only when it
      differs from its default. */
  function GitAttrs(m: Material): (r: map<string, string>)
    requires m.GitMaterial?
    ensures "url" in r && r["url"] == m.url
    ensures ("branch" in r <==> !IsOnMaster(m)) && ("dest" in r <==> Truthy(m.destinationDirectory))
    ensures ("autoUpdate" in r <==> !m.polling) && ("materialName" in r <==> m.materialName.Some?)
  {
    var withUrl := map["url" := m.url];
    var withBranch := if IsOnMaster(m) then withUrl else withUrl["branch" := m.branch.value];
    var withName := if m.materialName.None? then withBranch else withBranch["materialName" := m.materialName.value];
    var withPolling := if m.polling then withName else withName["autoUpdate" := "false"];
    if Truthy(m.destinationDirectory) then withPolling["dest" := m.destinationDirectory.value] else withPolling
  }

  /** The element `append_to` adds to the `materials` element. */
  function Encode(m: Material): (r: Element)
    ensures m.GitMaterial? ==> r.tag == "git" && "url" in r.attrs && r.attrs["url"] == m.url
    ensures m.GitMaterial? ==> ("branch" in r.attrs <==> !IsOnMaster(m)) && ("dest" in r.attrs <==> Truthy(m.destinationDirectory))
    ensures m.GitMaterial? ==> ("autoUpdate" in r.attrs <==> !m.polling) && ("materialName" in r.attrs <==> m.materialName.Some?)
    ensures m.GitMaterial? ==> (r.children == [] <==> m.ignorePatterns == {})
    ensures m.PipelineMaterial? ==> r.tag == "pipeline" && ("materialName" in r.attrs <==> m.materialName.Some?)
    ensures m.PackageMaterial? ==> r.tag == "package" && r.attrs == map["ref" := PyStr(m.packageId)]
    ensures r.text.None?
  {
    match m
    case GitMaterial(_, _, _, _, _, _) =>
      var filter := if m.ignorePatterns == {} then []
        else [Element("filter", map[], None, IgnoreElements(SortedList(m.ignorePatterns)))];
      Element("git", GitAttrs(m), None, filter)
    case PipelineMaterial(p, s, n) =>
      var attrs := map["pipelineName" := p, "stageName" := s];
      Element("pipeline", if n.None? then attrs else attrs["materialName" := n.value], None, [])
    case PackageMaterial(id) =>
      Element("package", map["ref" := PyStr(id)], None, [])
  }

  /** `material.append_to(element)` */
  function AppendTo(m: Material, parent: Element): (r: Element)
    ensures r.children == parent.children + [Encode(m)]
  {
    Append(parent, Encode(m))
  }

  /** `Materials(element)`: decodes by tag; a missing required attribute or an unknown tag raises. */
  function Decode(e: Element): (r: Result<Material>)
    ensures r.Ok? <==> ((e.tag == "git" && "url" in e.attrs && IgnorePatternsIn(e).Ok?)
                     || (e.tag == "pipeline" && "pipelineName" in e.attrs && "stageName" in e.attrs)
                     || e.tag == "package")
    ensures r.Ok? && e.tag == "git" ==>
      (r.value.GitMaterial? && r.value.url == e.attrs["url"] &&
       r.value.polling == (Get(e.attrs, "autoUpdate") in {None, Some("true")}))
    ensures r.Ok? && e.tag == "pipeline" ==> r.value.PipelineMaterial?
    ensures r.Ok? && e.tag == "package" ==> r.value == PackageMaterial(Get(e.attrs, "ref"))
  {
    if e.tag == "git" then
      var url :- Required(e.attrs, "url");
      var patterns :- IgnorePatternsIn(e);
      Ok(GitMaterial(url, Get(e.attrs, "branch"), Get(e.attrs, "materialName"),
                     Get(e.attrs, "autoUpdate").GetOr("true") == "true", patterns, Get(e.attrs, "dest")))
    else if e.tag == "pipeline" then
      var p :- Required(e.attrs, "pipelineName");
      var s :- Required(e.attrs, "stageName");
      Ok(PipelineMaterial(p, s, Get(e.attrs, "materialName")))
    else if e.tag == "package" then
      Ok(PackageMaterial(Get(e.attrs, "ref")))
    else
      Err("don't know of material matching " + e.tag)
  }

  /** What decoding the encoding of `m` yields: defaults written implicitly come back in their implicit form. */
  function Normalize(m: Material): (r: Material)
    ensures IsGit(r) == IsGit(m)
  {
    match m
    case GitMaterial(url, branch, name, polling, patterns, dest) =>
      GitMaterial(url, if IsOnMaster(m) then None else branch, name, polling, patterns,
                  if Truthy(dest) then dest else None)
    case PipelineMaterial(_, _, _) => m
    case PackageMaterial(id) => PackageMaterial(Some(PyStr(id)))
  }

  lemma {:induction false} PatternsOfIgnoreElements(patterns: seq<string>)
    ensures PatternsOf(IgnoreElements(patterns)) == Ok(set x | x in patterns)
    decreases |patterns|
  {
    if |patterns| > 0 {
      PatternsOfIgnoreElements(patterns[1..]);
      var cs := IgnoreElements(patterns);
      assert cs[0] == Element("ignore", map["pattern" := patterns[0]], None, []);
      assert cs[1..] == IgnoreElements(patterns[1..]);
      assert PatternsOf(cs) == Ok({patterns[0]} + (set x | x in patterns[1..]));
      assert (set x | x in patterns) == {patterns[0]} + (set x | x in patterns[1..]);
    } else {
      assert (set x | x in patterns) == {};
    }
  }

  lemma {:induction false} IgnorePatternsOfEncode(m: Material)
    requires m.GitMaterial?
    ensures IgnorePatternsIn(Encode(m)) == Ok(m.ignorePatterns)
  {
    var e := Encode(m);
    if m.ignorePatterns == {} {
      assert Find(e, "filter") == None;
    } else {
      var f := e.children[0];
      assert Find(e, "filter") == Some(f);
      var sorted := SortedList(m.ignorePatterns);
      assert FindAll(f, "ignore") == f.children by {
        FilterKeepsAll(f.children, IsTag("ignore"));
      }
      PatternsOfIgnoreElements(sorted);
      assert (set x | x in sorted) == m.ignorePatterns;
    }
  }

  lemma {:induction false} DecodeEncodeGit(m: Material)
    requires m.GitMaterial?
    ensures Decode(Encode(m)) == Ok(Normalize(m))
  {
    IgnorePatternsOfEncode(m);
    GitAttrsRead(m);
  }

  /** Reading the options back from the attributes gives their normal form. */
  lemma GitAttrsRead(m: Material)
    requires m.GitMaterial?
    ensures var a := GitAttrs(m);
      && Get(a, "url") == Some(m.url)
      && Get(a, "branch") == (if IsOnMaster(m) then None else m.branch)
      && Get(a, "materialName") == m.materialName
      && Get(a, "dest") == (if Truthy(m.destinationDirectory) then m.destinationDirectory else None)
      && (Get(a, "autoUpdate").GetOr("true") == "true") == m.polling
  {
  }

  /** Decoding an encoded material always succeeds and yields its normal form. */
  lemma {:induction false} DecodeEncode(m: Material)
    ensures Decode(Encode(m)) == Ok(Normalize(m))
  {
    if m.GitMaterial? {
      DecodeEncodeGit(m);
    }
  }

  /** The round trip is exact for a material already in normal form: a git material
      whose branch is not literally "master" and whose destination is not "". */
  lemma {:induction false} DecodeEncodeRoundTrip(m: Material)
    requires m.GitMaterial? ==> m.branch != Some("master") && m.destinationDirectory != Some("")
    requires m.PackageMaterial? ==> m.packageId.Some?
    ensures Decode(Encode(m)) == Ok(m)
  {
    DecodeEncode(m);
  }

  /** A git material whose branch is spelled out as master comes back as one with no branch. */
  lemma {:induction false} MasterBranchIsForgotten(url: string)
    ensures Decode(Encode(GitMaterial(url, Some("master"), None, true, {}, None))) == Ok(PlainGit(url))
  {
    DecodeEncode(GitMaterial(url, Some("master"), None, true, {}, None));
  }

  /** Encoding the normal form writes the same element. */
  lemma EncodeNormalize(m: Material)
    ensures Encode(Normalize(m)) == Encode(m)
  {
  }

  /** Code generation emits `set_git_url(url)` exactly when that call rebuilds the same element:
      without any option the material encodes like `GitMaterial(url)`, and every option shows. */
  lemma {:induction false} SetGitUrlSuffices(m: Material)
    requires m.GitMaterial?
    ensures !HasOptions(m) <==> Encode(m) == Encode(PlainGit(m.url))
  {
    if !HasOptions(m) {
      assert GitAttrs(m) == GitAttrs(PlainGit(m.url));
    }
  }

  // ---------------------------------------------------------------------------
  // Ordering of materials when the pipeline is reordered.

  /** `str(material)` for the materials that are not git. */
  function Repr(m: Material): string
    requires !m.GitMaterial?
  {
    match m
    case PipelineMaterial(p, s, n) =>
      if n.None? then "PipelineMaterial(\"" + p + "\", \"" + s + "\")"
      else "PipelineMaterial(\"" + p + "\", \"" + s + "\", \"" + n.value + "\")"
    case PackageMaterial(id) => "PackageMaterial(package_id=\"" + PyStr(id) + "\")"
  }

  /** Python's `(a > b) - (a < b)` on strings. */
  function Cmp(a: string, b: string): int {
    if Less(b, a) then 1 else if Less(a, b) then -1 else 0
  }

  /** `cmp_materials`: git materials first, by url; the others after, by their repr text. */
  function CmpMaterials(m1: Material, m2: Material): int {
    if IsGit(m1) then
      if IsGit(m2) then Cmp(m1.url, m2.url) else -1
    else
      if IsGit(m2) then 1 else Cmp(Repr(m1), Repr(m2))
  }

  /** A string key whose order is the order `cmp_materials` defines. */
  function SortKey(m: Material): string {
    if IsGit(m) then "0" + m.url else "1" + Repr(m)
  }

  lemma {:induction false} CmpAgrees(a: string, b: string)
    ensures Cmp(a, b) <= 0 <==> LessEq(a, b)
  {
    LessEqTotal(a, b);
    if LessEq(a, b) && LessEq(b, a) {
      LessEqAntisymmetric(a, b);
    }
  }

  /** The key order and the source's comparator agree on every pair. */
  lemma {:induction false} SortKeyMatchesComparator(m1: Material, m2: Material)
    ensures CmpMaterials(m1, m2) <= 0 <==> LessEq(SortKey(m1), SortKey(m2))
  {
    if IsGit(m1) && IsGit(m2) {
      CmpAgrees(m1.url, m2.url);
      SameHeadOrder('0', m1.url, m2.url);
    } else if IsGit(m1) {
      DifferentHeadOrder('0', '1', m1.url, Repr(m2));
    } else if IsGit(m2) {
      DifferentHeadOrder('0', '1', m2.url, Repr(m1));
    } else {
      CmpAgrees(Repr(m1), Repr(m2));
      SameHeadOrder('1', Repr(m1), Repr(m2));
    }
  }

  /** `Cmp` says 0 only of equal strings. */
  lemma {:induction false} CmpZero(a: string, b: string)
    ensures Cmp(a, b) == 0 <==> a == b
  {
    LessEqTotal(a, b);
  }

  /** The comparator ties two materials exactly when their keys are equal. */
  lemma {:induction false} TiesAreEqualKeys(m1: Material, m2: Material)
    ensures CmpMaterials(m1, m2) == 0 <==> SortKey(m1) == SortKey(m2)
  {
    if IsGit(m1) && IsGit(m2) {
      CmpZero(m1.url, m2.url);
      assert SortKey(m1) == SortKey(m2) ==> SortKey(m1)[1..] == SortKey(m2)[1..];
    } else if !IsGit(m1) && !IsGit(m2) {
      CmpZero(Repr(m1), Repr(m2));
      assert SortKey(m1) == SortKey(m2) ==> SortKey(m1)[1..] == SortKey(m2)[1..];
    } else {
      assert SortKey(m1)[0] != SortKey(m2)[0];
    }
  }

  /** `__reordered_materials_to_reduce_thrash`: a stable sort by the comparator. Materials
      the comparator ties are those of one key (`TiesAreEqualKeys`), and each such class
      keeps its original order. */
  function SortMaterials(ms: seq<Material>): (r: seq<Material>)
    ensures multiset(r) == multiset(ms)
    ensures forall i, j :: 0 <= i < j < |r| ==> CmpMaterials(r[i], r[j]) <= 0
    ensures forall k :: Filter(r, KeyIs(SortKey, k)) == Filter(ms, KeyIs(SortKey, k))
  {
    SortByFacts(ms, SortKey);
    forall k {
      SortByStable(ms, SortKey, k);
    }
    var r := SortBy(ms, SortKey);
    forall i, j | 0 <= i < j < |r|
      ensures CmpMaterials(r[i], r[j]) <= 0
    {
      SortKeyMatchesComparator(r[i], r[j]);
    }
    r
  }

  /** Normalising does not move a material in the order. */
  lemma NormalizeKeepsKey(m: Material)
    ensures SortKey(Normalize(m)) == SortKey(m)
  {
  }
}
