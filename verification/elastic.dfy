/** The `elastic` element: a `profiles` child holding `profile` entries, each with an
    `id`, a `pluginId` and properties. */
module Elastic {
  import opened Wrappers
  import opened Seqs
  import opened Xml
  import opened Plugins

  /** `Profile.profile_id` */
  function ProfileId(p: Element): Option<string> {
    Get(p.attrs, "id")
  }

  /** `Profile.plugin_id` */
  function PluginId(p: Element): Option<string> {
    Get(p.attrs, "pluginId")
  }

  /** `Profile == other`: compares the ids only. */
  predicate ProfileEquals(a: Element, b: Element) {
    ProfileId(a) == ProfileId(b)
  }

  /** Two profiles with the same id are equal whatever their plugin and properties, and
      profiles with different ids are not. */
  lemma {:induction false} ProfileEqualsById(id: string, other: string, p1: string, p2: string, props1: seq<(string, string)>, props2: seq<(string, string)>)
    ensures ProfileEquals(Entry("profile", id, p1, props1), Entry("profile", id, p2, props2))
    ensures other != id ==> !ProfileEquals(Entry("profile", id, p1, props1), Entry("profile", other, p1, props1))
  {
    EntryReads("profile", id, p1, props1);
    EntryReads("profile", id, p2, props2);
    EntryReads("profile", other, p1, props1);
  }

  /** `ensure_profile(id, plugin_id, properties)`: always appends a new profile and gives it;
      its id, plugin id and properties read back as given. */
  function EnsureProfile(profiles: Element, id: string, pluginId: string, props: seq<(string, string)>): (r: (Element, Element))
    ensures FindAll(r.0, "profile") == FindAll(profiles, "profile") + [r.1]
    ensures ProfileId(r.1) == Some(id) && PluginId(r.1) == Some(pluginId)
    ensures PropertiesIn(r.1) == Ok(PropsMap(props))
  {
    EntryReads("profile", id, pluginId, props);
    (AppendEntry(profiles, "profile", id, pluginId, props), Entry("profile", id, pluginId, props))
  }

  /** `ensure_replacement_of_profile(id, plugin_id, properties)`: the first profile with
      that id goes, then the new one is appended and given
      (`Plugins.ReplaceFirstEntryReads`). */
  function EnsureReplacementOfProfile(profiles: Element, id: string, pluginId: string, props: seq<(string, string)>): (r: (Element, Element))
    ensures var ps := FindAll(r.0, "profile"); |ps| > 0 && ps[|ps| - 1] == r.1
    ensures ProfileId(r.1) == Some(id) && PluginId(r.1) == Some(pluginId)
  {
    EntryReads("profile", id, pluginId, props);
    (ReplaceFirstEntry(profiles, "profile", id, pluginId, props), Entry("profile", id, pluginId, props))
  }

  /** `Profiles[index]` */
  function ProfileAt(profiles: Element, index: PyIndex): (r: Result<Element>)
    ensures r.Ok? ==> r.value in FindAll(profiles, "profile")
    ensures r.Ok? <==> index.IntIndex? && -(Count(profiles, "profile") as int) <= index.i < Count(profiles, "profile")
  {
    At(profiles, "profile", index, "Profiles")
  }

  /** `Profiles.make_empty()` / `Elastic.make_empty()` */
  function MakeEmpty(e: Element): (r: Element)
    ensures r.children == [] && r.tag == e.tag && r.attrs == e.attrs
    ensures Count(r, "profile") == 0
  {
    RemoveAllChildren(Some(e), None).value
  }

  /** `Elastic.profiles`: the first `profiles` child, possibly absent. */
  function ProfilesOf(el: Element): Option<Element> {
    Find(el, "profiles")
  }

  /** `ensure_profiles()`: find-or-create; a second call changes nothing. */
  function EnsureProfiles(el: Element): (r: (Element, Element))
    ensures ProfilesOf(r.0) == Some(r.1)
    ensures Find(el, "profiles").Some? ==> r == (el, Find(el, "profiles").value)
  {
    EnsureFound(el, "profiles")
  }

  /** `ensure_replacement_of_profiles()`: the profiles are there and empty. */
  function EnsureReplacementOfProfiles(el: Element): (r: (Element, Element))
    ensures ProfilesOf(r.0) == Some(r.1) && Count(r.1, "profile") == 0
    ensures |FindAll(r.0, "profiles")| == if Find(el, "profiles").None? then 1 else |FindAll(el, "profiles")|
  {
    EnsureEmptyChild(el, "profiles")
  }
}
