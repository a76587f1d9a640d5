/** Generic-artifactory package repositories: a `repository` element with a
    `pluginConfiguration`, a `configuration` of properties and a `packages` child holding
    `package` elements, each with its own `configuration`. Wrapping a repository or a
    package element gives it an `id` when it has none; the fresh id (a `uuid1()` in the source)
    is a parameter here. */
module Repositories {
  import opened Wrappers
  import opened Seqs
  import opened Xml
  import opened Plugins

  // ---------------------------------------------------------------------------
  // Ids and names

  /** `has_id` */
  predicate HasId(e: Element) {
    "id" in e.attrs
  }

  /** The constructor of either class: an element without an `id` gets the fresh one; an
      element with one is left alone, so wrapping twice is wrapping once. */
  function Wrap(e: Element, freshId: string): (r: Element)
    ensures HasId(r)
    ensures HasId(e) ==> r == e
    ensures !HasId(e) ==> r.attrs == e.attrs["id" := freshId]
    ensures r.tag == e.tag && r.text == e.text && r.children == e.children
    ensures forall k :: k != "id" && k in e.attrs ==> k in r.attrs && r.attrs[k] == e.attrs[k]
  {
    if HasId(e) then e else SetAttr(e, "id", freshId)
  }

  /** `name`: raises KeyError when missing. */
  function Name(e: Element): (r: Result<string>)
    ensures r.Ok? <==> "name" in e.attrs
    ensures r.Ok? ==> r.value == e.attrs["name"]
  {
    Required(e.attrs, "name")
  }

  /** `make_empty()`: every child goes, the attributes (the id among them) stay. */
  function MakeEmpty(e: Element): (r: Element)
    ensures r.children == [] && r.tag == e.tag && r.attrs == e.attrs
  {
    RemoveAllChildren(Some(e), None).value
  }

  // ---------------------------------------------------------------------------
  // Configuration properties

  /** The properties of the first `configuration` child, none when there is none. */
  function ConfigProperties(e: Element): seq<Element> {
    PossiblyMissingFindAll(Find(e, "configuration"), "property")
  }

  /** A property whose `key` child has the text `name`. */
  function HasKey(name: string): Element -> bool {
    (p: Element) => p.tag == "property" && Find(p, "key").Some? && Find(p, "key").value.text == Some(name)
  }

  /** Reading `p.find('key').text` raises for a property without a `key` child. */
  predicate KeysReadable(e: Element) {
    forall p :: p in ConfigProperties(e) ==> Find(p, "key").Some?
  }

  /** `<property><key>name</key><value>value</value></property>`, or with an
      `encryptedValue` child instead of `value`. */
  function PropertyOf(name: string, value: string, encrypted: bool): (r: Element)
    ensures r.tag == "property" && |r.children| == 2 && r.children[0] == Parsed("key", name)
    ensures r.children[1] == Parsed(if encrypted then "encryptedValue" else "value", value)
    ensures !encrypted ==> r == PropertyElement((name, value))
  {
    Element("property", map[], None, [Parsed("key", name), Parsed(if encrypted then "encryptedValue" else "value", value)])
  }

  /** The written property carries its key, unless the key is empty (then it parses as no
      text and no key matches it). */
  lemma {:induction false} PropertyOfHasKey(name: string, value: string, encrypted: bool)
    ensures HasKey(name)(PropertyOf(name, value, encrypted)) <==> name != ""
  {
    assert FirstIndex(PropertyOf(name, value, encrypted).children, IsTag("key")) == Some(0);
  }

  /** `ensure_child('configuration').append(property)`: the configuration is found or
      created and the property goes last in it; nothing else changes. */
  function AppendProperty(e: Element, prop: Element): (r: Element)
    requires prop.tag == "property"
    ensures Find(r, "configuration").Some?
    ensures ConfigProperties(r) == ConfigProperties(e) + [prop]
    ensures forall t :: t != "configuration" ==> FindAll(r, t) == FindAll(e, t)
    ensures r.tag == e.tag && r.attrs == e.attrs
  {
    var h := EnsureChild(e, "configuration");
    var c := Append(Child(h), prop);
    EnsureChildPutFinds(e, "configuration", c);
    FindAllAppend(Child(h), prop, "property");
    forall t | t != "configuration"
      ensures FindAll(Put(h, c), t) == FindAll(e, t)
    {
      EnsureChildPutKeepsOthers(e, "configuration", c, t);
    }
    Put(h, c)
  }

  /** `remove_configuration_property(name)` (the repository's copy is spelled
      `remove_configuration_proporty`): the configuration is found or created, and every
      property with that key goes. A property without a key raises. */
  function RemoveProperty(e: Element, name: string): (r: Result<Element>)
    ensures r.Ok? <==> KeysReadable(e)
    ensures r.Ok? ==> Find(r.value, "configuration").Some? && r.value.tag == e.tag && r.value.attrs == e.attrs
  {
    if !KeysReadable(e) then Err("AttributeError: 'NoneType' object has no attribute 'text'")
    else
      var h := EnsureChild(e, "configuration");
      var c := Child(h).(children := Filter(Child(h).children, Not(HasKey(name))));
      EnsureChildPutFinds(e, "configuration", c);
      Ok(Put(h, c))
  }

  /** Afterwards the properties are the old ones without those with that key, in order;
      nothing outside the configuration changes. */
  lemma {:induction false} RemovePropertyReads(e: Element, name: string)
    requires KeysReadable(e)
    ensures var r := RemoveProperty(e, name).value;
      && ConfigProperties(r) == Filter(ConfigProperties(e), Not(HasKey(name)))
      && Filter(ConfigProperties(r), HasKey(name)) == []
      && KeysReadable(r)
      && (forall t :: t != "configuration" ==> FindAll(r, t) == FindAll(e, t))
  {
    var h := EnsureChild(e, "configuration");
    var p := HasKey(name);
    var c := Child(h).(children := Filter(Child(h).children, Not(p)));
    var none := (x: Element) => false;
    EnsureChildPutFinds(e, "configuration", c);
    FindAllFilter(Child(h), "property", Not(p));
    var before := ConfigProperties(e);
    assert FindAll(Child(h), "property") == before;
    FilterMembers(before, Not(p));
    FilterFilter(before, Not(p), p, none);
    FilterDropsAll(before, none);
    forall t | t != "configuration"
      ensures FindAll(Put(h, c), t) == FindAll(e, t)
    {
      EnsureChildPutKeepsOthers(e, "configuration", c, t);
    }
  }

  /** The package setters `set_repository_id`, `set_package_path` and `set_package_id`:
      remove every property with the key, then append the new one. */
  function SetPackageProperty(pkg: Element, key: string, value: string): (r: Result<Element>)
    ensures r.Ok? <==> KeysReadable(pkg)
    ensures r.Ok? ==> ConfigProperties(r.value) == Filter(ConfigProperties(pkg), Not(HasKey(key))) + [PropertyElement((key, value))]
  {
    var r1 :- RemoveProperty(pkg, key);
    RemovePropertyReads(pkg, key);
    Ok(AppendProperty(r1, PropertyElement((key, value))))
  }

  /** With a non-empty key, exactly one property carries it afterwards, the new one, and it
      is last; the properties with other keys stay in order. */
  lemma {:induction false} SetPackagePropertyReads(pkg: Element, key: string, value: string)
    requires KeysReadable(pkg) && key != ""
    ensures var props := ConfigProperties(SetPackageProperty(pkg, key, value).value);
      && |props| > 0 && props[|props| - 1] == PropertyElement((key, value))
      && Filter(props, HasKey(key)) == [PropertyElement((key, value))]
      && Filter(props, Not(HasKey(key))) == Filter(ConfigProperties(pkg), Not(HasKey(key)))
  {
    var x := PropertyElement((key, value));
    assert HasKey(key)(x) by {
      PropertyOfHasKey(key, value, false);
    }
    assert ConfigProperties(SetPackageProperty(pkg, key, value).value) == Filter(ConfigProperties(pkg), Not(HasKey(key))) + [x];
    SetterLeavesOne(ConfigProperties(pkg), key, x);
  }

  /** The list fact behind every setter: drop a key, append a property with that key. */
  lemma {:induction false} SetterLeavesOne(props: seq<Element>, key: string, x: Element)
    requires HasKey(key)(x)
    ensures var s := Filter(props, Not(HasKey(key))) + [x];
      && Filter(s, HasKey(key)) == [x]
      && Filter(s, Not(HasKey(key))) == Filter(props, Not(HasKey(key)))
  {
    var p := HasKey(key);
    var kept := Filter(props, Not(p));
    var none := (y: Element) => false;
    FilterMembers(props, Not(p));
    FilterFilter(props, Not(p), p, none);
    FilterDropsAll(props, none);
    FilterAppend(kept, [x], p);
    FilterAppend(kept, [x], Not(p));
    FilterFilter(props, Not(p), Not(p), Not(p));
  }

  /** `set_repository_id(id)` */
  function SetRepositoryId(pkg: Element, id: string): Result<Element> {
    SetPackageProperty(pkg, "REPO_ID", id)
  }

  /** `set_package_path(path)` */
  function SetPackagePath(pkg: Element, path: string): Result<Element> {
    SetPackageProperty(pkg, "PACKAGE_PATH", path)
  }

  /** `set_package_id(id)` */
  function SetPackageId(pkg: Element, id: string): Result<Element> {
    SetPackageProperty(pkg, "PACKAGE_ID", id)
  }

  // ---------------------------------------------------------------------------
  // Repository properties

  /** The repository's plugin configuration: `<pluginConfiguration id="generic-artifactory">`. */
  const IsGenericArtifactory: Element -> bool := HasAttrValue("pluginConfiguration", "id", "generic-artifactory")

  /** Repository `set_configuration_property(name, value, encrypted)`: the plugin
      configuration is found or created and gets `version="1"`, then the property (with an
      `encryptedValue` child when encrypted) is appended to the configuration. A plugin
      configuration without an `id` raises KeyError. */
  function SetRepoProperty(repo: Element, name: string, value: string, encrypted: bool): (r: Result<Element>)
    ensures r.Ok? <==> AllCarry(repo, "pluginConfiguration", "id")
    ensures r.Ok? ==> ConfigProperties(r.value) == ConfigProperties(repo) + [PropertyOf(name, value, encrypted)]
    ensures r.Ok? ==> r.value.tag == repo.tag && r.value.attrs == repo.attrs
  {
    var k :- EnsureChildWithAttribute(repo, "pluginConfiguration", "id", "generic-artifactory");
    var r1 := Put(k, SetAttr(Child(k), "version", "1"));
    PluginConfigurationPutKeeps(repo, SetAttr(Child(k), "version", "1"), "configuration");
    Ok(AppendProperty(r1, PropertyOf(name, value, encrypted)))
  }

  /** Changing the plugin configuration through its handle leaves every other tag alone. */
  lemma {:induction false} PluginConfigurationPutKeeps(repo: Element, c: Element, t: string)
    requires EnsureChildWithAttribute(repo, "pluginConfiguration", "id", "generic-artifactory").Ok?
    requires c.tag == "pluginConfiguration" && t != "pluginConfiguration"
    ensures var k := EnsureChildWithAttribute(repo, "pluginConfiguration", "id", "generic-artifactory").value;
      FindAll(Put(k, c), t) == FindAll(repo, t)
      && Find(Put(k, c), t) == Find(repo, t)
  {
    var k := EnsureChildWithAttribute(repo, "pluginConfiguration", "id", "generic-artifactory").value;
    if FirstIndex(repo.children, IsGenericArtifactory).None? {
      assert Put(k, c).children == repo.children + [c];
      FilterAppend(repo.children, [c], IsTag(t));
    } else {
      FilterUpdateOther(repo.children, k.index, c, IsTag(t));
    }
    FindIsFirstOfFindAll(Put(k, c), t);
    FindIsFirstOfFindAll(repo, t);
  }

  /** After setting a property there is one generic-artifactory plugin configuration if
      there was none (as many as before otherwise), and the first has `version="1"`. */
  lemma {:induction false} SetRepoPropertyPluginConfiguration(repo: Element, name: string, value: string, encrypted: bool)
    requires AllCarry(repo, "pluginConfiguration", "id")
    ensures var r := SetRepoProperty(repo, name, value, encrypted).value;
      var before := |Filter(repo.children, IsGenericArtifactory)|;
      && |Filter(r.children, IsGenericArtifactory)| == (if before == 0 then 1 else before)
      && FirstIndex(r.children, IsGenericArtifactory).Some?
      && var pc := r.children[FirstIndex(r.children, IsGenericArtifactory).value];
         "version" in pc.attrs && pc.attrs["version"] == "1"
  {
    var k := EnsureChildWithAttribute(repo, "pluginConfiguration", "id", "generic-artifactory").value;
    var c := SetAttr(Child(k), "version", "1");
    PluginConfigurationStep(repo);
    AppendPropertyKeepsOthers(Put(k, c), PropertyOf(name, value, encrypted), IsGenericArtifactory);
  }

  /** The plugin-configuration half of the setter on its own. */
  lemma {:induction false} PluginConfigurationStep(repo: Element)
    requires AllCarry(repo, "pluginConfiguration", "id")
    ensures var k := EnsureChildWithAttribute(repo, "pluginConfiguration", "id", "generic-artifactory").value;
      var c := SetAttr(Child(k), "version", "1");
      var r1 := Put(k, c);
      var before := |Filter(repo.children, IsGenericArtifactory)|;
      && |Filter(r1.children, IsGenericArtifactory)| == (if before == 0 then 1 else before)
      && FirstIndex(r1.children, IsGenericArtifactory) == Some(k.index)
      && r1.children[k.index] == c && "version" in c.attrs && c.attrs["version"] == "1"
  {
    var p := IsGenericArtifactory;
    var k := EnsureChildWithAttribute(repo, "pluginConfiguration", "id", "generic-artifactory").value;
    var c := SetAttr(Child(k), "version", "1");
    EnsureChildWithAttributeNoDuplicate(repo, "pluginConfiguration", "id", "generic-artifactory");
    assert p(c);
    if FirstIndex(repo.children, p).None? {
      assert forall j :: 0 <= j < |repo.children| ==> k.parent.children[j] == repo.children[j];
    }
    FirstIndexIs(k.parent.children, p, k.index);
    FirstIndexUpdate(k.parent.children, k.index, c, p);
    FilterUpdateMatch(k.parent.children, k.index, c, p);
  }

  /** Appending a property changes no child that `q` picks out, if `q` picks out no
      configuration. */
  lemma {:induction false} AppendPropertyKeepsOthers(e: Element, prop: Element, q: Element -> bool)
    requires prop.tag == "property"
    requires forall c :: q(c) ==> c.tag != "configuration"
    ensures var r := AppendProperty(e, prop);
      Filter(r.children, q) == Filter(e.children, q) && FirstIndex(r.children, q) == FirstIndex(e.children, q)
      && (FirstIndex(e.children, q).Some? ==> r.children[FirstIndex(e.children, q).value] == e.children[FirstIndex(e.children, q).value])
  {
    var h := EnsureChild(e, "configuration");
    var c := Append(Child(h), prop);
    var r := Put(h, c);
    if Find(e, "configuration").None? {
      assert r.children == e.children + [c];
      FilterAppend(e.children, [c], q);
      if FirstIndex(e.children, q).Some? {
        FirstIndexAppend(e.children, [c], q);
      } else {
        FirstIndexAppendNone2(e.children, c, q);
      }
    } else {
      FilterUpdateOther(e.children, h.index, c, q);
      FirstIndexUpdateOther(e.children, h.index, c, q);
    }
  }

  lemma {:induction false} FirstIndexAppendNone2(s: seq<Element>, c: Element, q: Element -> bool)
    requires FirstIndex(s, q).None? && !q(c)
    ensures FirstIndex(s + [c], q).None?
  {
    assert forall j :: 0 <= j < |s| ==> (s + [c])[j] == s[j];
  }

  /** Replacing an element that neither old nor new matches keeps the first match. */
  lemma {:induction false} FirstIndexUpdateOther(s: seq<Element>, i: nat, c: Element, q: Element -> bool)
    requires i < |s| && !q(s[i]) && !q(c)
    ensures FirstIndex(s[i := c], q) == FirstIndex(s, q)
  {
    match FirstIndex(s, q)
    case None =>
      var t := s[i := c];
      forall j | 0 <= j < |t|
        ensures !q(t[j])
      {
        if j != i {
          assert t[j] == s[j];
        }
      }
    case Some(m) =>
      assert m != i;
      FirstIndexIs(s[i := c], q, m);
  }

  /** Repository `set_repository_url(url)`: remove every `REPO_URL`, then set it. */
  function SetRepositoryUrl(repo: Element, url: string): (r: Result<Element>)
    ensures r.Ok? <==> KeysReadable(repo) && AllCarry(repo, "pluginConfiguration", "id")
    ensures r.Ok? ==> ConfigProperties(r.value) == Filter(ConfigProperties(repo), Not(HasKey("REPO_URL"))) + [PropertyOf("REPO_URL", url, false)]
  {
    var r1 :- RemoveProperty(repo, "REPO_URL");
    RemovePropertyReads(repo, "REPO_URL");
    RemovePropertyKeepsPluginConfiguration(repo, "REPO_URL");
    SetRepoProperty(r1, "REPO_URL", url, false)
  }

  lemma {:induction false} RemovePropertyKeepsPluginConfiguration(e: Element, name: string)
    requires KeysReadable(e)
    ensures AllCarry(RemoveProperty(e, name).value, "pluginConfiguration", "id") <==> AllCarry(e, "pluginConfiguration", "id")
  {
    var r := RemoveProperty(e, name).value;
    RemovePropertyReads(e, name);
    AllCarryByFindAll(r, "pluginConfiguration", "id");
    AllCarryByFindAll(e, "pluginConfiguration", "id");
  }

  /** `AllCarry` depends only on the children with the tag. */
  lemma {:induction false} AllCarryByFindAll(e: Element, tag: string, name: string)
    ensures AllCarry(e, tag, name) <==> forall c :: c in FindAll(e, tag) ==> name in c.attrs
  {
    FilterMembers(e.children, IsTag(tag));
  }

  /** The repository is the value `set_credentials(username, password)` leaves: neither
      old `USERNAME` nor old `PASSWORD` property is left, then come the quoted user name
      in plain and the password encrypted, in that order. The url quoting is a parameter. */
  function SetCredentials(repo: Element, username: string, password: string, quote: string -> string): (r: Result<Element>)
    ensures r.Ok? <==> KeysReadable(repo) && AllCarry(repo, "pluginConfiguration", "id")
    ensures r.Ok? ==> (ConfigProperties(r.value) ==
      Filter(Filter(ConfigProperties(repo), Not(HasKey("USERNAME"))), Not(HasKey("PASSWORD")))
        + [PropertyOf("USERNAME", quote(username), false), PropertyOf("PASSWORD", password, true)])
  {
    SetCredentialsSteps(repo, username, password, quote);
    var r1 :- RemoveProperty(repo, "USERNAME");
    var r2 := RemoveProperty(r1, "PASSWORD").value;
    var r3 :- SetRepoProperty(r2, "USERNAME", quote(username), false);
    SetRepoProperty(r3, "PASSWORD", password, true)
  }

  /** The four steps of `set_credentials` in turn. */
  lemma {:induction false} SetCredentialsSteps(repo: Element, username: string, password: string, quote: string -> string)
    ensures KeysReadable(repo) && AllCarry(repo, "pluginConfiguration", "id") ==>
      && RemoveProperty(repo, "USERNAME").Ok?
      && var r1 := RemoveProperty(repo, "USERNAME").value;
      && RemoveProperty(r1, "PASSWORD").Ok?
      && var r2 := RemoveProperty(r1, "PASSWORD").value;
      && SetRepoProperty(r2, "USERNAME", quote(username), false).Ok?
      && var r3 := SetRepoProperty(r2, "USERNAME", quote(username), false).value;
      && SetRepoProperty(r3, "PASSWORD", password, true).Ok?
      && ConfigProperties(SetRepoProperty(r3, "PASSWORD", password, true).value) ==
        Filter(Filter(ConfigProperties(repo), Not(HasKey("USERNAME"))), Not(HasKey("PASSWORD")))
          + [PropertyOf("USERNAME", quote(username), false), PropertyOf("PASSWORD", password, true)]
    ensures !KeysReadable(repo) ==> RemoveProperty(repo, "USERNAME").Err?
    ensures KeysReadable(repo) && !AllCarry(repo, "pluginConfiguration", "id") ==>
      && RemoveProperty(repo, "USERNAME").Ok?
      && var r1 := RemoveProperty(repo, "USERNAME").value;
      && RemoveProperty(r1, "PASSWORD").Ok?
      && SetRepoProperty(RemoveProperty(r1, "PASSWORD").value, "USERNAME", quote(username), false).Err?
  {
    if KeysReadable(repo) {
      RemoveTwice(repo, "USERNAME", "PASSWORD");
      if AllCarry(repo, "pluginConfiguration", "id") {
        var r2 := RemoveProperty(RemoveProperty(repo, "USERNAME").value, "PASSWORD").value;
        SetTwice(r2, PropertyOf("USERNAME", quote(username), false), "USERNAME", quote(username), "PASSWORD", password);
      }
    }
  }

  /** Two removals in a row keep the keys readable and the plugin configurations, and
      filter the properties twice. */
  lemma {:induction false} RemoveTwice(e: Element, a: string, b: string)
    requires KeysReadable(e)
    ensures RemoveProperty(e, a).Ok? && RemoveProperty(RemoveProperty(e, a).value, b).Ok?
    ensures var r2 := RemoveProperty(RemoveProperty(e, a).value, b).value;
      && ConfigProperties(r2) == Filter(Filter(ConfigProperties(e), Not(HasKey(a))), Not(HasKey(b)))
      && (AllCarry(r2, "pluginConfiguration", "id") <==> AllCarry(e, "pluginConfiguration", "id"))
  {
    var r1 := RemoveProperty(e, a).value;
    RemovePropertyReads(e, a);
    RemovePropertyKeepsPluginConfiguration(e, a);
    RemovePropertyReads(r1, b);
    RemovePropertyKeepsPluginConfiguration(r1, b);
  }

  /** A plain property and then an encrypted one go last, in that order. */
  lemma {:induction false} SetTwice(e: Element, user: Element, a: string, va: string, b: string, vb: string)
    requires AllCarry(e, "pluginConfiguration", "id") && user == PropertyOf(a, va, false)
    ensures SetRepoProperty(e, a, va, false).Ok?
    ensures SetRepoProperty(SetRepoProperty(e, a, va, false).value, b, vb, true).Ok?
    ensures ConfigProperties(SetRepoProperty(SetRepoProperty(e, a, va, false).value, b, vb, true).value)
      == ConfigProperties(e) + [user, PropertyOf(b, vb, true)]
  {
    var r3 := SetRepoProperty(e, a, va, false).value;
    SetRepoPropertyKeepsCarry(e, a, va, false);
    var pass := PropertyOf(b, vb, true);
    AppendTwo(ConfigProperties(e), user, pass);
  }

  lemma AppendTwo<T>(s: seq<T>, x: T, y: T)
    ensures (s + [x]) + [y] == s + [x, y]
  {
  }

  lemma {:induction false} SetRepoPropertyKeepsCarry(repo: Element, name: string, value: string, encrypted: bool)
    requires AllCarry(repo, "pluginConfiguration", "id")
    ensures AllCarry(SetRepoProperty(repo, name, value, encrypted).value, "pluginConfiguration", "id")
  {
    var k := EnsureChildWithAttribute(repo, "pluginConfiguration", "id", "generic-artifactory").value;
    var c := SetAttr(Child(k), "version", "1");
    var r1 := Put(k, c);
    assert AllCarry(r1, "pluginConfiguration", "id") by {
      EnsureChildWithAttributeCarries(repo, "pluginConfiguration", "id", "generic-artifactory");
      PutCarries(k, c, "pluginConfiguration", "id");
    }
    var r := AppendProperty(r1, PropertyOf(name, value, encrypted));
    assert SetRepoProperty(repo, name, value, encrypted) == Ok(r);
    assert AllCarry(r, "pluginConfiguration", "id") by {
      AllCarryByFindAll(r1, "pluginConfiguration", "id");
      AllCarryByFindAll(r, "pluginConfiguration", "id");
    }
  }

  // ---------------------------------------------------------------------------
  // Keyed children that get an id on creation

  /** `ensure_child(container).ensure_child_with_attribute(tag, "name", name)` followed by
      wrapping (an `id` only when missing) and then `f` applied to the child in place. Gives
      the new element and the child. */
  function PutNamed(e: Element, container: string, tag: string, name: string, freshId: string, f: Element -> Element): (r: Result<(Element, Element)>)
    ensures r.Ok? <==> AllCarry(Child(EnsureChild(e, container)), tag, "name")
  {
    var h := EnsureChild(e, container);
    var k :- EnsureChildWithAttribute(Child(h), tag, "name", name);
    var c := f(Wrap(Child(k), freshId));
    Ok((Put(h, Put(k, c)), c))
  }

  /** `f` keeps the tag, the name and the id, and applying it twice is applying it once. */
  ghost predicate Settles(f: Element -> Element) {
    forall c :: f(c).tag == c.tag && f(c).attrs == c.attrs && f(f(c)) == f(c)
  }

  /** The child ends up as the first one with that name in the container, with an id. */
  lemma {:induction false} PutNamedFinds(e: Element, container: string, tag: string, name: string, freshId: string, f: Element -> Element)
    requires Settles(f)
    requires PutNamed(e, container, tag, name, freshId, f).Ok?
    ensures var (r, c) := PutNamed(e, container, tag, name, freshId, f).value;
      && Find(r, container).Some?
      && var cs := Find(r, container).value.children;
         FirstIndex(cs, HasAttrValue(tag, "name", name)).Some?
         && cs[FirstIndex(cs, HasAttrValue(tag, "name", name)).value] == c
         && HasId(c) && Name(c) == Ok(name)
  {
    var h := EnsureChild(e, container);
    var k := EnsureChildWithAttribute(Child(h), tag, "name", name).value;
    var c := f(Wrap(Child(k), freshId));
    var p := HasAttrValue(tag, "name", name);
    EnsureChildPutFinds(e, container, Put(k, c));
    KeyedSlotFirst(Child(h), tag, name);
    FirstIndexUpdate(k.parent.children, k.index, c, p);
  }

  /** The slot `ensure_child_with_attribute` gives is the first child with the key. */
  lemma {:induction false} KeyedSlotFirst(e: Element, tag: string, name: string)
    requires EnsureChildWithAttribute(e, tag, "name", name).Ok?
    ensures var k := EnsureChildWithAttribute(e, tag, "name", name).value;
      FirstIndex(k.parent.children, HasAttrValue(tag, "name", name)) == Some(k.index)
      && AllCarry(k.parent, tag, "name")
  {
    var k := EnsureChildWithAttribute(e, tag, "name", name).value;
    if FirstIndex(e.children, HasAttrValue(tag, "name", name)).None? {
      assert forall j :: 0 <= j < |e.children| ==> k.parent.children[j] == e.children[j];
    }
    FirstIndexIs(k.parent.children, HasAttrValue(tag, "name", name), k.index);
  }

  /** A second call, with any fresh id, finds the child the first one left and changes
      nothing: the id is assigned once. */
  lemma {:induction false} PutNamedIdempotent(e: Element, container: string, tag: string, name: string, id1: string, id2: string, f: Element -> Element)
    requires Settles(f)
    requires PutNamed(e, container, tag, name, id1, f).Ok?
    ensures var r := PutNamed(e, container, tag, name, id1, f).value;
      PutNamed(r.0, container, tag, name, id2, f) == Ok(r)
  {
    var h := EnsureChild(e, container);
    var k := EnsureChildWithAttribute(Child(h), tag, "name", name).value;
    var c := f(Wrap(Child(k), id1));
    var p := HasAttrValue(tag, "name", name);
    var inner := Put(k, c);
    var r := Put(h, inner);
    var h2 := EnsureChild(r, container);
    assert h2.parent == r && Child(h2) == inner by {
      EnsureChildPutFinds(e, container, inner);
    }
    assert EnsureChildWithAttribute(inner, tag, "name", name) == Ok(Ensured(inner, k.index)) by {
      KeyedSlotFirst(Child(h), tag, name);
      FirstIndexUpdate(k.parent.children, k.index, c, p);
      PutCarries(k, c, tag, "name");
    }
    var k2 := Ensured(inner, k.index);
    assert f(Wrap(Child(k2), id2)) == c by {
      assert Wrap(c, id2) == c;
    }
    PutChild(k2);
    PutChild(h2);
  }

  /** The identity: wrapping only. */
  function Keep(c: Element): Element {
    c
  }

  // ---------------------------------------------------------------------------
  // Packages

  /** Every package in the container has an id. */
  predicate PackagesHaveIds(ps: Element) {
    forall i :: 0 <= i < |ps.children| && ps.children[i].tag == "package" ==> HasId(ps.children[i])
  }

  /** Wrapping every package of the container, as reading the packages does: the package
      at child position `i` gets the fresh id `newId(i)` when it has none (the source
      draws a new uuid1 for each); the other children stay. */
  function StampIds(ps: Element, newId: nat -> string): (r: Element)
    ensures r.tag == ps.tag && r.attrs == ps.attrs && r.text == ps.text
    ensures PackagesHaveIds(r)
    ensures PackagesHaveIds(ps) ==> r == ps
    ensures AllCarry(r, "package", "name") <==> AllCarry(ps, "package", "name")
  {
    var cs := seq(|ps.children|, i requires 0 <= i < |ps.children| => StampChild(ps.children[i], newId(i)));
    StampedChildren(ps, cs, newId);
    ps.(children := cs)
  }

  /** A package is wrapped; any other child stays. */
  function StampChild(c: Element, id: string): Element {
    if c.tag == "package" then Wrap(c, id) else c
  }

  lemma {:induction false} StampedChildren(ps: Element, cs: seq<Element>, newId: nat -> string)
    requires |cs| == |ps.children|
    requires forall i :: 0 <= i < |cs| ==> cs[i] == StampChild(ps.children[i], newId(i))
    ensures PackagesHaveIds(ps.(children := cs))
    ensures PackagesHaveIds(ps) ==> cs == ps.children
    ensures AllCarry(ps.(children := cs), "package", "name") <==> AllCarry(ps, "package", "name")
  {
    if PackagesHaveIds(ps) {
      assert forall i :: 0 <= i < |cs| ==> cs[i] == ps.children[i];
    }
  }

  /** Dropping children keeps every remaining package's id. */
  lemma {:induction false} FilterKeepsIds(ps: Element, q: Element -> bool)
    requires PackagesHaveIds(ps)
    ensures PackagesHaveIds(ps.(children := Filter(ps.children, q)))
  {
    var cs := Filter(ps.children, q);
    FilterMembers(ps.children, q);
    forall i | 0 <= i < |cs| && cs[i].tag == "package"
      ensures HasId(cs[i])
    {
      assert cs[i] in ps.children;
      var j :| 0 <= j < |ps.children| && ps.children[j] == cs[i];
    }
  }

  /** The packages of a container whose packages all have ids have ids. */
  lemma {:induction false} FindAllHasIds(ps: Element)
    requires PackagesHaveIds(ps)
    ensures forall q :: q in FindAll(ps, "package") ==> q.tag == "package" && HasId(q)
  {
    FilterMembers(ps.children, IsTag("package"));
    forall q | q in FindAll(ps, "package")
      ensures q.tag == "package" && HasId(q)
    {
      var j :| 0 <= j < |ps.children| && ps.children[j] == q;
    }
  }

  /** `generic_artifactory_repository_packages`: the packages of the first `packages`
      child, each wrapped, so a package without an id gets one in the document itself;
      without a `packages` child, `findall('packages')[0]` raises IndexError. Gives the
      document after the wrapping and the packages. */
  function Packages(repo: Element, newId: nat -> string): (r: Result<(Element, seq<Element>)>)
    ensures r.Ok? <==> Find(repo, "packages").Some?
    ensures r.Ok? ==> forall q :: q in r.value.1 ==> q.tag == "package" && HasId(q)
    ensures r.Ok? && PackagesHaveIds(Find(repo, "packages").value) ==>
      r.value == (repo, FindAll(Find(repo, "packages").value, "package"))
  {
    match Find(repo, "packages")
    case None => Err("IndexError: list index out of range")
    case Some(_) =>
      var h := EnsureChild(repo, "packages");
      var s := StampIds(Child(h), newId);
      FindAllHasIds(s);
      PutChild(h);
      Ok((Put(h, s), FindAll(s, "package")))
  }

  /** Reading the packages wraps each package once: a second read, whatever fresh ids it
      is offered, changes nothing and yields the same packages, and the wrapping touches
      nothing outside `packages`. */
  lemma {:induction false} PackagesStampOnce(repo: Element, newId: nat -> string, newId2: nat -> string)
    requires Packages(repo, newId).Ok?
    ensures var (r, ps) := Packages(repo, newId).value;
      && Packages(r, newId2) == Ok((r, ps))
      && (forall t :: t != "packages" ==> FindAll(r, t) == FindAll(repo, t))
  {
    var h := EnsureChild(repo, "packages");
    var s := StampIds(Child(h), newId);
    EnsureChildPutFinds(repo, "packages", s);
    forall t | t != "packages"
      ensures FindAll(Put(h, s), t) == FindAll(repo, t)
    {
      EnsureChildPutKeepsOthers(repo, "packages", s, t);
    }
  }

  /** `ensure_generic_artifactory_repository_package(name)`: find-or-create by name in the
      found-or-created `packages`; the package gets an id only when it has none. */
  function EnsurePackage(repo: Element, name: string, freshId: string): (r: Result<(Element, Element)>)
    ensures r.Ok? <==> AllCarry(Child(EnsureChild(repo, "packages")), "package", "name")
    ensures r.Ok? ==> Name(r.value.1) == Ok(name) && HasId(r.value.1) && r.value.1.tag == "package"
  {
    var r := PutNamed(repo, "packages", "package", name, freshId, Keep);
    if r.Ok? then PutNamedFinds(repo, "packages", "package", name, freshId, Keep); r else r
  }

  /** `ensure_replacement_generic_artifactory_repository_package(name)`: the package is
      ensured and then emptied in place, keeping its name and id. */
  function EnsureReplacementOfPackage(repo: Element, name: string, freshId: string): (r: Result<(Element, Element)>)
    ensures r.Ok? <==> AllCarry(Child(EnsureChild(repo, "packages")), "package", "name")
    ensures r.Ok? ==> Name(r.value.1) == Ok(name) && HasId(r.value.1) && r.value.1.children == []
  {
    var r := PutNamed(repo, "packages", "package", name, freshId, MakeEmpty);
    if r.Ok? then PutNamedFinds(repo, "packages", "package", name, freshId, MakeEmpty); r else r
  }

  /** Ensuring or replacing a package a second time, whatever fresh id is offered, changes
      nothing, and the package is the first with its name. */
  lemma {:induction false} EnsurePackageIdempotent(repo: Element, name: string, id1: string, id2: string)
    ensures EnsurePackage(repo, name, id1).Ok? ==>
      var r := EnsurePackage(repo, name, id1).value;
      EnsurePackage(r.0, name, id2) == Ok(r)
    ensures EnsureReplacementOfPackage(repo, name, id1).Ok? ==>
      var r := EnsureReplacementOfPackage(repo, name, id1).value;
      EnsureReplacementOfPackage(r.0, name, id2) == Ok(r)
  {
    if EnsurePackage(repo, name, id1).Ok? {
      PutNamedIdempotent(repo, "packages", "package", name, id1, id2, Keep);
    }
    if EnsureReplacementOfPackage(repo, name, id1).Ok? {
      PutNamedIdempotent(repo, "packages", "package", name, id1, id2, MakeEmpty);
    }
  }

  /** `ensure_removal_generic_artifactory_repository_package(name)`: the packages are
      read, which wraps each one (a package without an id gets `newId` of its position),
      and every package with that name leaves the first `packages` child. Reading the
      packages raises IndexError without one, and reading a name raises KeyError. */
  function EnsureRemovalOfPackage(repo: Element, name: string, newId: nat -> string): (r: Result<Element>)
    ensures r.Ok? <==> Find(repo, "packages").Some? && AllCarry(Find(repo, "packages").value, "package", "name")
  {
    match Find(repo, "packages")
    case None => Err("IndexError: list index out of range")
    case Some(_) =>
      var h := EnsureChild(repo, "packages");
      var c :- RemoveKeyed(StampIds(Child(h), newId), "package", "name", name);
      Ok(Put(h, c))
  }

  /** The packages left are the packages as read (wrapped), without the named ones; they
      all have ids, so reading them again changes nothing; nothing outside `packages`
      changes. When every package already had an id, the others stay exactly as they
      were. */
  lemma {:induction false} EnsureRemovalOfPackageReads(repo: Element, name: string, newId: nat -> string, newId2: nat -> string)
    requires EnsureRemovalOfPackage(repo, name, newId).Ok?
    ensures var r := EnsureRemovalOfPackage(repo, name, newId).value;
      var p := HasAttrValue("package", "name", name);
      var before := Packages(repo, newId).value.1;
      && Packages(r, newId2) == Ok((r, Filter(before, Not(p))))
      && Filter(Packages(r, newId2).value.1, p) == []
      && (PackagesHaveIds(Find(repo, "packages").value) ==>
            Packages(r, newId2).value.1 == Filter(FindAll(Find(repo, "packages").value, "package"), Not(p)))
      && (forall t :: t != "packages" ==> FindAll(r, t) == FindAll(repo, t))
  {
    var p := HasAttrValue("package", "name", name);
    var h := EnsureChild(repo, "packages");
    var s := StampIds(Child(h), newId);
    var c := RemoveKeyed(s, "package", "name", name).value;
    EnsureChildPutFinds(repo, "packages", c);
    FilterKeepsIds(s, Not(p));
    FindAllFilter(s, "package", Not(p));
    RemoveKeyedReads(s, "package", "name", name);
    forall t | t != "packages"
      ensures FindAll(Put(h, c), t) == FindAll(repo, t)
    {
      EnsureChildPutKeepsOthers(repo, "packages", c, t);
    }
  }
}
