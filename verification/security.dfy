/** The `security` element under `server`: `roles` (plain `role` children with their
    users, and `pluginRole` children) and `authConfigs` (`authConfig` children). */
module Security {
  import opened Wrappers
  import opened Seqs
  import opened Xml
  import opened Plugins

  // ---------------------------------------------------------------------------
  // Roles

  /** `Role.name` / `PluginRole.name`: read with `get`, so possibly None. */
  function RoleName(role: Element): Option<string> {
    Get(role.attrs, "name")
  }

  /** `Role.users`: the texts of the `user` children of the `users` child; a role without
      `users` raises AttributeError. */
  function Users(role: Element): (r: Result<seq<Option<string>>>)
    ensures r.Ok? <==> Find(role, "users").Some?
    ensures r.Ok? ==> |r.value| == |FindAll(Find(role, "users").value, "user")|
  {
    match Find(role, "users")
    case None => Err("AttributeError: 'NoneType' object has no attribute 'findall'")
    case Some(u) => Ok(Map(FindAll(u, "user"), TextOf))
  }

  /** `<role name="name"><users><user>u</user>...</users></role>` */
  function RoleElement(name: string, users: seq<string>): Element {
    Element("role", map["name" := name], None,
      [Element("users", map[], None, Map(users, (u: string) => Parsed("user", u)))])
  }

  /** `PluginRole.auth_config_id` */
  function AuthConfigIdOf(pluginRole: Element): Option<string> {
    Get(pluginRole.attrs, "authConfigId")
  }

  /** `<pluginRole name="name" authConfigId="id">properties</pluginRole>` */
  function PluginRoleElement(name: string, authConfigId: string, props: seq<(string, string)>): Element {
    Element("pluginRole", map["name" := name, "authConfigId" := authConfigId], None, Map(props, PropertyElement))
  }

  /** `ensure_role(name, users)`: always appends a new role, even when one with that name
      exists; plugin roles are untouched. */
  function EnsureRole(roles: Element, name: string, users: seq<string>): (r: Element)
    ensures FindAll(r, "role") == FindAll(roles, "role") + [RoleElement(name, users)]
    ensures FindAll(r, "pluginRole") == FindAll(roles, "pluginRole")
    ensures r.tag == roles.tag && r.attrs == roles.attrs
  {
    FindAllAppend(roles, RoleElement(name, users), "role");
    FindAllAppend(roles, RoleElement(name, users), "pluginRole");
    Append(roles, RoleElement(name, users))
  }

  /** The appended role reads back its name and its users in the given order (an empty
      user name reads back as None). */
  lemma EnsureRoleReads(roles: Element, name: string, users: seq<string>)
    ensures var rs := FindAll(EnsureRole(roles, name, users), "role");
      && RoleName(rs[|rs| - 1]) == Some(name)
      && Users(rs[|rs| - 1]) == Ok(Map(users, ParsedText))
      && Count(EnsureRole(roles, name, users), "role") == Count(roles, "role") + 1
  {
    var x := RoleElement(name, users);
    var u := x.children[0];
    assert FirstIndex(x.children, IsTag("users")) == Some(0);
    FilterKeepsAll(u.children, IsTag("user"));
  }

  /** `ensure_plugin_role(name, auth_config_id, properties)`: always appends; the plain
      roles are untouched. */
  function EnsurePluginRole(roles: Element, name: string, authConfigId: string, props: seq<(string, string)>): (r: Element)
    ensures FindAll(r, "pluginRole") == FindAll(roles, "pluginRole") + [PluginRoleElement(name, authConfigId, props)]
    ensures FindAll(r, "role") == FindAll(roles, "role")
    ensures r.tag == roles.tag && r.attrs == roles.attrs
  {
    var x := PluginRoleElement(name, authConfigId, props);
    FindAllAppend(roles, x, "role");
    FindAllAppend(roles, x, "pluginRole");
    Append(roles, x)
  }

  /** The appended plugin role reads back its name, auth config id and properties, and
      neither `len` nor indexing of the roles sees it. */
  lemma {:induction false} EnsurePluginRoleReads(roles: Element, name: string, authConfigId: string, props: seq<(string, string)>, index: PyIndex)
    ensures var r := EnsurePluginRole(roles, name, authConfigId, props);
      var ps := FindAll(r, "pluginRole");
      && RoleName(ps[|ps| - 1]) == Some(name) && AuthConfigIdOf(ps[|ps| - 1]) == Some(authConfigId)
      && PropertiesIn(ps[|ps| - 1]) == Ok(PropsMap(props))
      && Count(r, "role") == Count(roles, "role")
      && RoleAt(r, index) == RoleAt(roles, index)
  {
    var x := PluginRoleElement(name, authConfigId, props);
    FilterKeepsAll(x.children, IsTag("property"));
    PropertiesRoundTrip(props);
  }

  /** `Roles[index]`: indexes the plain roles only. */
  function RoleAt(roles: Element, index: PyIndex): (r: Result<Element>)
    ensures r.Ok? ==> r.value in FindAll(roles, "role")
    ensures index.OtherIndex? ==> r.Err?
  {
    At(roles, "role", index, "Roles")
  }

  /** `Roles.make_empty()` / `AuthConfigs.make_empty()` / `Security.make_empty()`: every
      child goes, attributes stay. */
  function MakeEmpty(e: Element): (r: Element)
    ensures r.children == [] && r.tag == e.tag && r.attrs == e.attrs
    ensures forall t :: Count(r, t) == 0
  {
    RemoveAllChildren(Some(e), None).value
  }

  // ---------------------------------------------------------------------------
  // Auth configs

  /** `AuthConfig.auth_config_id` */
  function AuthConfigId(ac: Element): Option<string> {
    Get(ac.attrs, "id")
  }

  /** `AuthConfig.plugin_id` */
  function PluginId(ac: Element): Option<string> {
    Get(ac.attrs, "pluginId")
  }

  /** `AuthConfig == other` as written: it reads an attribute `auth_plugin_id` that the
      class never defines, so comparing two auth configs always raises. */
  function AuthConfigEqualsAsWritten(a: Element, b: Element): (r: Result<bool>)
    ensures r.Err?
  {
    Err("AttributeError: 'AuthConfig' object has no attribute 'auth_plugin_id'")
  }

  /** `ensure_auth_config(id, plugin_id, properties)`: always appends. */
  function EnsureAuthConfig(configs: Element, id: string, pluginId: string, props: seq<(string, string)>): (r: Element)
    ensures FindAll(r, "authConfig") == FindAll(configs, "authConfig") + [Entry("authConfig", id, pluginId, props)]
    ensures Count(r, "authConfig") == Count(configs, "authConfig") + 1
  {
    AppendEntry(configs, "authConfig", id, pluginId, props)
  }

  /** `ensure_replacement_of_auth_config(id, plugin_id, properties)`: the first auth config
      with that id goes and the new one is appended (`Plugins.ReplaceFirstEntryReads`). */
  function EnsureReplacementOfAuthConfig(configs: Element, id: string, pluginId: string, props: seq<(string, string)>): (r: Element)
    ensures var acs := FindAll(r, "authConfig");
      |acs| > 0 && AuthConfigId(acs[|acs| - 1]) == Some(id) && PluginId(acs[|acs| - 1]) == Some(pluginId)
  {
    EntryReads("authConfig", id, pluginId, props);
    ReplaceFirstEntry(configs, "authConfig", id, pluginId, props)
  }

  /** `AuthConfigs[index]` */
  function AuthConfigAt(configs: Element, index: PyIndex): (r: Result<Element>)
    ensures r.Ok? ==> r.value in FindAll(configs, "authConfig")
    ensures index.OtherIndex? ==> r.Err?
  {
    At(configs, "authConfig", index, "AuthConfig")
  }

  // ---------------------------------------------------------------------------
  // The security element

  /** `roles`: the first `roles` child; an absent one is wrapped as None, on which every
      read raises. */
  function RolesOf(sec: Element): Option<Element> {
    Find(sec, "roles")
  }

  /** `auth_configs` */
  function AuthConfigsOf(sec: Element): Option<Element> {
    Find(sec, "authConfigs")
  }

  /** `ensure_roles()`: find-or-create. */
  function EnsureRoles(sec: Element): (r: (Element, Element))
    ensures RolesOf(r.0) == Some(r.1)
    ensures AuthConfigsOf(r.0) == AuthConfigsOf(sec)
  {
    var r := EnsureFound(sec, "roles");
    FindIsFirstOfFindAll(r.0, "authConfigs");
    FindIsFirstOfFindAll(sec, "authConfigs");
    r
  }

  /** `ensure_auth_configs()`: find-or-create. */
  function EnsureAuthConfigs(sec: Element): (r: (Element, Element))
    ensures AuthConfigsOf(r.0) == Some(r.1)
    ensures RolesOf(r.0) == RolesOf(sec)
  {
    var r := EnsureFound(sec, "authConfigs");
    FindIsFirstOfFindAll(r.0, "roles");
    FindIsFirstOfFindAll(sec, "roles");
    r
  }

  /** `ensure_replacement_of_roles()`: the roles are there and empty; the auth configs stay. */
  function EnsureReplacementOfRoles(sec: Element): (r: (Element, Element))
    ensures RolesOf(r.0) == Some(r.1) && r.1.children == []
    ensures Count(r.1, "role") == 0 && Count(r.1, "pluginRole") == 0
    ensures AuthConfigsOf(r.0) == AuthConfigsOf(sec)
  {
    var r := EnsureEmptyChild(sec, "roles");
    FindIsFirstOfFindAll(r.0, "authConfigs");
    FindIsFirstOfFindAll(sec, "authConfigs");
    r
  }

  /** `ensure_replacement_of_auth_configs()`: the auth configs are there and empty; the
      roles stay. */
  function EnsureReplacementOfAuthConfigs(sec: Element): (r: (Element, Element))
    ensures AuthConfigsOf(r.0) == Some(r.1) && r.1.children == []
    ensures Count(r.1, "authConfig") == 0
    ensures RolesOf(r.0) == RolesOf(sec)
  {
    var r := EnsureEmptyChild(sec, "authConfigs");
    FindIsFirstOfFindAll(r.0, "roles");
    FindIsFirstOfFindAll(sec, "roles");
    r
  }

  /** Replacing the roles twice is replacing them once, and so for the auth configs. */
  lemma {:induction false} EnsureReplacementIdempotent(sec: Element)
    ensures EnsureReplacementOfRoles(EnsureReplacementOfRoles(sec).0) == EnsureReplacementOfRoles(sec)
    ensures EnsureReplacementOfAuthConfigs(EnsureReplacementOfAuthConfigs(sec).0) == EnsureReplacementOfAuthConfigs(sec)
  {
    EnsureEmptyChildIdempotent(sec, "roles");
    EnsureEmptyChildIdempotent(sec, "authConfigs");
  }
}
