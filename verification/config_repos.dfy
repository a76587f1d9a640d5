/** The `config-repos` element: `config-repo` children, each naming a plugin and holding one
    version-control child (`git`, `svn`, `hg`, `p4` or `tfs`) with a `url`, and optionally a
    `configuration` of properties. Which attributes are written depends on the GoCD server
    version. */
module ConfigRepos {
  import opened Wrappers
  import opened Seqs
  import opened Xml
  import opened Plugins

  // ---------------------------------------------------------------------------
  // Server versions

  /** A server version as `LooseVersion` splits a dotted numeric string: "17.9.0" is [17, 9, 0]. */
  type Version = seq<nat>

  /** `LooseVersion` ordering, which is Python's list ordering: element by element, and a
      proper prefix comes first. */
  predicate VersionLess(a: Version, b: Version)
    decreases |a|
  {
    if |b| == 0 then false
    else if |a| == 0 then true
    else if a[0] != b[0] then a[0] < b[0]
    else VersionLess(a[1..], b[1..])
  }

  lemma {:induction false} VersionLessTransitive(a: Version, b: Version, c: Version)
    requires VersionLess(a, b) && VersionLess(b, c)
    ensures VersionLess(a, c)
    decreases |a|
  {
    if |a| > 0 && a[0] == b[0] && b[0] == c[0] {
      VersionLessTransitive(a[1..], b[1..], c[1..]);
    }
  }

  lemma {:induction false} VersionLessIrreflexive(a: Version)
    ensures !VersionLess(a, a)
    decreases |a|
  {
    if |a| > 0 {
      VersionLessIrreflexive(a[1..]);
    }
  }

  /** `ATTR_NAME_CHANGE_VERSION` */
  const AttrNameChangeVersion: Version := [17, 9, 0]
  /** `ID_INTRODUCED_VERSION` */
  const IdIntroducedVersion: Version := [17, 8, 0]

  /** `has_new_attr_name(version)`: the plugin goes under `pluginId` from 17.9.0 on. */
  predicate HasNewAttrName(v: Version) {
    !VersionLess(v, AttrNameChangeVersion)
  }

  /** `has_id(version)`: config repos carry an `id` from 17.8.0 on. */
  predicate HasId(v: Version) {
    !VersionLess(v, IdIntroducedVersion)
  }

  /** A server with the new attribute name also has ids, and 17.8.x has ids but the old name. */
  lemma {:induction false} NewAttrNameHasId(v: Version)
    ensures HasNewAttrName(v) ==> HasId(v)
    ensures HasId([17, 8, 5]) && !HasNewAttrName([17, 8, 5])
  {
    assert VersionLess(IdIntroducedVersion, AttrNameChangeVersion) by {
      assert IdIntroducedVersion[1..] == [8, 0] && AttrNameChangeVersion[1..] == [9, 0];
    }
    if VersionLess(v, IdIntroducedVersion) {
      VersionLessTransitive(v, IdIntroducedVersion, AttrNameChangeVersion);
    }
    var w: Version := [17, 8, 5];
    assert w[1..] == [8, 5] && w[1..][1..] == [5];
    assert IdIntroducedVersion[1..][1..] == [0];
    assert !VersionLess(w, IdIntroducedVersion);
    assert VersionLess(w, AttrNameChangeVersion);
  }

  /** The attribute the plugin is written and read under. */
  function PluginAttr(v: Version): string {
    if HasNewAttrName(v) then "pluginId" else "plugin"
  }

  // ---------------------------------------------------------------------------
  // One config repo

  /** `ConfigRepo.valid_cvs` */
  const ValidCvs: seq<string> := ["git", "svn", "hg", "p4", "tfs"]

  function IsCvs(c: Element): bool {
    c.tag in ValidCvs
  }

  /** `cvs`: the tag of the first child that is a version-control child, if any. */
  function Cvs(repo: Element): (r: Option<string>)
    ensures r.Some? <==> FirstIndex(repo.children, IsCvs).Some?
    ensures r.Some? ==> r.value in ValidCvs && Find(repo, r.value).Some?
  {
    match FirstIndex(repo.children, IsCvs)
    case None => None
    case Some(i) =>
      Some(repo.children[i].tag)
  }

  /** `url`: the `url` attribute of that child, read with `get`; without a version-control
      child the lookup raises. */
  function Url(repo: Element): (r: Result<Option<string>>)
    ensures r.Ok? <==> Cvs(repo).Some?
  {
    match Cvs(repo)
    case None => Err("TypeError: 'NoneType' object is not subscriptable")
    case Some(t) => Ok(Get(Find(repo, t).value.attrs, "url"))
  }

  /** `configuration`: the properties read from every child of the `configuration` child;
      without one it raises. */
  function Configuration(repo: Element): (r: Result<Properties>)
    ensures Find(repo, "configuration").None? ==> r.Err?
  {
    match Find(repo, "configuration")
    case None => Err("AttributeError: 'NoneType' object has no attribute 'getchildren'")
    case Some(c) => PropertiesOf(c.children)
  }

  /** `plugin` */
  function Plugin(repo: Element, v: Version): Option<string> {
    Get(repo.attrs, PluginAttr(v))
  }

  /** `repo_id`: the `id` attribute, and None before ids exist. */
  function RepoId(repo: Element, v: Version): (r: Option<string>)
    ensures !HasId(v) ==> r.None?
  {
    if HasId(v) then Get(repo.attrs, "id") else None
  }

  /** `ConfigRepo == other`: same url and same plugin. The url of the left one is read first
      and the plugin only when the urls agree. */
  function RepoEquals(a: Element, b: Element, v: Version): (r: Result<bool>)
    ensures r.Ok? <==> Url(a).Ok? && Url(b).Ok?
    ensures r.Ok? ==> (r.value <==> Url(a) == Url(b) && Plugin(a, v) == Plugin(b, v))
  {
    var ua :- Url(a);
    var ub :- Url(b);
    Ok(ua == ub && Plugin(a, v) == Plugin(b, v))
  }

  /** `x in repos`: compares with each repo in turn and stops at the first equal one, so a
      repo after that one is never read. */
  function Contains(repos: seq<Element>, x: Element, v: Version): (r: Result<bool>)
    ensures r == Ok(true) ==> exists i :: 0 <= i < |repos| && RepoEquals(repos[i], x, v) == Ok(true)
    ensures r == Ok(false) <==> forall i :: 0 <= i < |repos| ==> RepoEquals(repos[i], x, v) == Ok(false)
    decreases |repos|
  {
    if |repos| == 0 then Ok(false)
    else match RepoEquals(repos[0], x, v)
      case Err(m) => Err(m)
      case Ok(true) => Ok(true)
      case Ok(false) =>
        TailIndices(repos);
        Contains(repos[1..], x, v)
  }

  // ---------------------------------------------------------------------------
  // Writing a config repo

  function NotColon(c: char): bool {
    c != ':'
  }

  function SlashToDash(c: char): char {
    if c == '/' then '-' else c
  }

  /** The default id: the url with every `:` dropped and every `/` turned into `-`
      (`url.replace(':', '').replace('/', '-')`), walked one character at a time. The
      contract ties it to the two replacements done one after the other: the characters
      other than `:` survive in order, each `/` among them becoming `-`. */
  function DefaultId(url: string): (r: string)
    ensures r == Map(Filter(url, NotColon), SlashToDash)
    ensures |r| == |url| - multiset(url)[':']
    ensures ':' !in r && '/' !in r
    ensures ':' !in url && '/' !in url ==> r == url
    decreases |url|
  {
    if |url| == 0 then ""
    else
      var head := if url[0] == ':' then "" else if url[0] == '/' then "-" else [url[0]];
      var rest := DefaultId(url[1..]);
      assert url == [url[0]] + url[1..];
      assert multiset(url) == multiset{url[0]} + multiset(url[1..]);
      MapAppend(if NotColon(url[0]) then [url[0]] else [], Filter(url[1..], NotColon), SlashToDash);
      assert ':' !in url ==> ':' !in url[1..];
      assert '/' !in url ==> '/' !in url[1..];
      head + rest
  }

  /** The `configuration` child, written only for a non-empty configuration. */
  function ConfigurationChildren(configuration: seq<(string, string)>): seq<Element> {
    if |configuration| == 0 then []
    else [Element("configuration", map[], None, Map(configuration, PropertyElement))]
  }

  /** The element `ensure_config_repo` builds. With ids, the id is the one given or, when
      none (or an empty one) is given, the default id of the url. */
  function RepoElement(v: Version, url: string, plugin: string, cvs: string, configuration: seq<(string, string)>, repoId: Option<string>): (r: Element)
    ensures r.tag == "config-repo" && |r.children| >= 1 && r.children[0] == Element(cvs, map["url" := url], None, [])
    ensures Plugin(r, v) == Some(plugin)
    ensures HasId(v) && (repoId.None? || repoId == Some("")) ==> RepoId(r, v) == Some(DefaultId(url))
    ensures HasId(v) && repoId.Some? && repoId != Some("") ==> RepoId(r, v) == repoId
  {
    var children := [Element(cvs, map["url" := url], None, [])] + ConfigurationChildren(configuration);
    if HasId(v) then
      var id := if repoId.None? || repoId == Some("") then DefaultId(url) else repoId.value;
      Element("config-repo", map[PluginAttr(v) := plugin, "id" := id], None, children)
    else
      NewAttrNameHasId(v);
      Element("config-repo", map["plugin" := plugin], None, children)
  }

  /** A written repo with a valid version-control kind reads back its kind, url and
      configuration; without a configuration, reading it raises. */
  lemma {:induction false} RepoElementReads(v: Version, url: string, plugin: string, cvs: string, configuration: seq<(string, string)>, repoId: Option<string>)
    requires cvs in ValidCvs
    ensures var r := RepoElement(v, url, plugin, cvs, configuration, repoId);
      && Cvs(r) == Some(cvs) && Url(r) == Ok(Some(url))
      && (|configuration| > 0 ==> Configuration(r) == Ok(PropsMap(configuration)))
      && (|configuration| == 0 ==> Configuration(r).Err?)
  {
    var r := RepoElement(v, url, plugin, cvs, configuration, repoId);
    RepoElementReadsUrl(r, url, cvs);
    if |configuration| > 0 {
      RepoElementReadsConfiguration(r, cvs, configuration);
    } else {
      assert r.children == [Element(cvs, map["url" := url], None, [])];
    }
  }

  lemma {:induction false} RepoElementReadsUrl(r: Element, url: string, cvs: string)
    requires cvs in ValidCvs && |r.children| >= 1 && r.children[0] == Element(cvs, map["url" := url], None, [])
    ensures Cvs(r) == Some(cvs) && Url(r) == Ok(Some(url))
  {
    var c0 := r.children[0];
    assert IsCvs(c0) && IsTag(cvs)(c0);
    assert FirstIndex(r.children, IsCvs) == Some(0);
    assert FirstIndex(r.children, IsTag(cvs)) == Some(0);
  }

  lemma {:induction false} RepoElementReadsConfiguration(r: Element, cvs: string, configuration: seq<(string, string)>)
    requires cvs in ValidCvs && |configuration| > 0 && |r.children| >= 1
    requires r.children[1..] == ConfigurationChildren(configuration)
    requires r.children[0].tag == cvs
    ensures Configuration(r) == Ok(PropsMap(configuration))
  {
    var c1 := r.children[1];
    assert c1 == Element("configuration", map[], None, Map(configuration, PropertyElement));
    assert r.children[0].tag != "configuration";
    FirstIndexIs(r.children, IsTag("configuration"), 1);
    PropertiesRoundTrip(configuration);
  }

  // ---------------------------------------------------------------------------
  // The container

  /** `config_repo` */
  function Repos(c: Element): seq<Element> {
    FindAll(c, "config-repo")
  }

  /** `ensure_config_repo(url, plugin, cvs, configuration, repo_id)`: builds the repo and
      appends it unless a repo with the same url and plugin is there; gives the new container
      and the built repo. Comparing with a repo that has no version-control child raises. */
  function EnsureConfigRepo(c: Element, v: Version, url: string, plugin: string, cvs: string,
                            configuration: seq<(string, string)>, repoId: Option<string>): (r: Result<(Element, Element)>)
    ensures r.Ok? <==> Contains(Repos(c), RepoElement(v, url, plugin, cvs, configuration, repoId), v).Ok?
    ensures r.Ok? ==> r.value.1 == RepoElement(v, url, plugin, cvs, configuration, repoId)
    ensures r.Ok? ==>
      (Contains(Repos(c), r.value.1, v) == Ok(false) && Repos(r.value.0) == Repos(c) + [r.value.1]) ||
      (Contains(Repos(c), r.value.1, v) == Ok(true) && r.value.0 == c)
  {
    var x := RepoElement(v, url, plugin, cvs, configuration, repoId);
    var present :- Contains(Repos(c), x, v);
    FindAllAppend(c, x, "config-repo");
    if present then Ok((c, x)) else Ok((Append(c, x), x))
  }

  /** With a valid version-control kind, a second identical call finds the repo and changes
      nothing. */
  lemma {:induction false} EnsureConfigRepoIdempotent(c: Element, v: Version, url: string, plugin: string, cvs: string,
                                   configuration: seq<(string, string)>, repoId: Option<string>)
    requires cvs in ValidCvs
    requires EnsureConfigRepo(c, v, url, plugin, cvs, configuration, repoId).Ok?
    ensures var (c1, _) := EnsureConfigRepo(c, v, url, plugin, cvs, configuration, repoId).value;
      EnsureConfigRepo(c1, v, url, plugin, cvs, configuration, repoId) == Ok((c1, RepoElement(v, url, plugin, cvs, configuration, repoId)))
  {
    var x := RepoElement(v, url, plugin, cvs, configuration, repoId);
    var (c1, _) := EnsureConfigRepo(c, v, url, plugin, cvs, configuration, repoId).value;
    RepoElementReads(v, url, plugin, cvs, configuration, repoId);
    if Contains(Repos(c), x, v) == Ok(false) {
      ContainsAppendSelf(Repos(c), x, v);
    }
  }

  /** Scanning past repos that all differ reaches the appended copy of `x`, which is equal. */
  lemma {:induction false} ContainsAppendSelf(repos: seq<Element>, x: Element, v: Version)
    requires Contains(repos, x, v) == Ok(false) && Url(x).Ok?
    ensures Contains(repos + [x], x, v) == Ok(true)
    decreases |repos|
  {
    if |repos| > 0 {
      assert (repos + [x])[1..] == repos[1..] + [x];
      assert RepoEquals(repos[0], x, v) == Ok(false);
      ContainsAppendSelf(repos[1..], x, v);
    } else {
      assert RepoEquals(x, x, v) == Ok(true);
    }
  }

  /** `ensure_yaml_config_repo(url)` */
  function EnsureYamlConfigRepo(c: Element, v: Version, url: string): (r: Result<(Element, Element)>)
    ensures r.Ok? ==> Plugin(r.value.1, v) == Some("yaml.config.plugin") && Cvs(r.value.1) == Some("git")
  {
    RepoElementReads(v, url, "yaml.config.plugin", "git", [], None);
    EnsureConfigRepo(c, v, url, "yaml.config.plugin", "git", [], None)
  }

  /** `ensure_json_config_repo(url)` */
  function EnsureJsonConfigRepo(c: Element, v: Version, url: string): (r: Result<(Element, Element)>)
    ensures r.Ok? ==> Plugin(r.value.1, v) == Some("json.config.plugin") && Cvs(r.value.1) == Some("git")
  {
    RepoElementReads(v, url, "json.config.plugin", "git", [], None);
    EnsureConfigRepo(c, v, url, "json.config.plugin", "git", [], None)
  }

  /** A repo whose url is the given one. */
  function HasUrl(url: string): Element -> bool {
    (e: Element) => e.tag == "config-repo" && Url(e) == Ok(Some(url))
  }

  /** `ensure_replacement_of_config_repo(url, plugin, cvs, configuration)`: every repo with
      that url goes (reading the url of a repo without a version-control child raises), then
      the new repo is ensured with the default id. */
  function EnsureReplacementOfConfigRepo(c: Element, v: Version, url: string, plugin: string, cvs: string,
                                         configuration: seq<(string, string)>): (r: Result<Element>)
    ensures r.Ok? ==> forall e :: e in Repos(c) ==> Url(e).Ok?
  {
    if exists e :: e in Repos(c) && Url(e).Err? then Err("TypeError: 'NoneType' object is not subscriptable")
    else
      var kept := c.(children := Filter(c.children, Not(HasUrl(url))));
      var (c1, _) :- EnsureConfigRepo(kept, v, url, plugin, cvs, configuration, None);
      Ok(c1)
  }

  /** With a valid version-control kind the replacement succeeds whenever every repo has a
      url, leaves exactly the new repo with that url, last, and keeps the other repos in
      their order. */
  lemma {:induction false} EnsureReplacementOfConfigRepoReads(c: Element, v: Version, url: string, plugin: string, cvs: string,
                                           configuration: seq<(string, string)>)
    requires cvs in ValidCvs
    requires forall e :: e in Repos(c) ==> Url(e).Ok?
    ensures var r := EnsureReplacementOfConfigRepo(c, v, url, plugin, cvs, configuration);
      && r.Ok?
      && Repos(r.value) == Filter(Repos(c), Not(HasUrl(url))) + [RepoElement(v, url, plugin, cvs, configuration, None)]
  {
    var p := HasUrl(url);
    var kept := c.(children := Filter(c.children, Not(p)));
    var x := RepoElement(v, url, plugin, cvs, configuration, None);
    assert Repos(kept) == Filter(Repos(c), Not(p)) by {
      FindAllFilter(c, "config-repo", Not(p));
    }
    var e := EnsureConfigRepo(kept, v, url, plugin, cvs, configuration, None);
    assert e.Ok? && Repos(e.value.0) == Repos(kept) + [x] by {
      KeptReposDiffer(c, v, url, plugin, cvs, configuration);
    }
    assert EnsureReplacementOfConfigRepo(c, v, url, plugin, cvs, configuration) == Ok(e.value.0);
  }

  /** The repos left once those with the url are gone all differ from the new repo. */
  lemma {:induction false} KeptReposDiffer(c: Element, v: Version, url: string, plugin: string, cvs: string,
                        configuration: seq<(string, string)>)
    requires cvs in ValidCvs
    requires forall e :: e in Repos(c) ==> Url(e).Ok?
    ensures Contains(Filter(Repos(c), Not(HasUrl(url))), RepoElement(v, url, plugin, cvs, configuration, None), v) == Ok(false)
  {
    RepoElementReads(v, url, plugin, cvs, configuration, None);
    FilterMembers(c.children, IsTag("config-repo"));
    RemainingReposDiffer(Repos(c), RepoElement(v, url, plugin, cvs, configuration, None), v, url);
  }

  /** Once every repo with that url is gone, no remaining repo equals a repo with that url. */
  lemma {:induction false} RemainingReposDiffer(repos: seq<Element>, x: Element, v: Version, url: string)
    requires forall e :: e in repos ==> Url(e).Ok? && e.tag == "config-repo"
    requires Url(x) == Ok(Some(url))
    ensures Contains(Filter(repos, Not(HasUrl(url))), x, v) == Ok(false)
  {
    var p := HasUrl(url);
    var kept := Filter(repos, Not(p));
    FilterMembers(repos, Not(p));
    forall i | 0 <= i < |kept|
      ensures RepoEquals(kept[i], x, v) == Ok(false)
    {
      assert kept[i] in repos && !p(kept[i]);
    }
  }

  /** `ConfigRepos.make_empty()` and `ConfigRepo.make_empty()`: every child goes. */
  function MakeEmpty(c: Element): (r: Element)
    ensures r.children == [] && Repos(r) == [] && r.attrs == c.attrs
  {
    RemoveAllChildren(Some(c), None).value
  }

  /** An emptied repo has no version-control child, so reading its url or its
      configuration raises, while its plugin and id stay. */
  lemma MakeEmptyRepo(repo: Element, v: Version)
    ensures Cvs(MakeEmpty(repo)).None?
    ensures Url(MakeEmpty(repo)).Err? && Configuration(MakeEmpty(repo)).Err?
    ensures Plugin(MakeEmpty(repo), v) == Plugin(repo, v) && RepoId(MakeEmpty(repo), v) == RepoId(repo, v)
  {
  }
}
