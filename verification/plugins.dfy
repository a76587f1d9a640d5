/** The plugin settings shared by auth configs, plugin roles, elastic profiles and
    artifact stores: a list of `property` children, each holding a `key` and a `value`
    child, and entries carrying an `id` and a `pluginId` attribute. */
module Plugins {
  import opened Wrappers
  import opened Seqs
  import opened Xml

  /** The property map as read back: keys and values are element texts, so either may be
      None (an empty string written between the tags reads back as no text). */
  type Properties = map<Option<string>, Option<string>>

  /** `<property><key>k</key><value>v</value></property>` */
  function PropertyElement(kv: (string, string)): (r: Element)
    ensures r.tag == "property" && |r.children| == 2
    ensures r.children[0] == Parsed("key", kv.0) && r.children[1] == Parsed("value", kv.1)
  {
    Element("property", map[], None, [Parsed("key", kv.0), Parsed("value", kv.1)])
  }

  /** The loop `props[prop.find('key').text] = prop.find('value').text` over the given
      `property` elements: a later key overwrites an earlier one, and a property without a
      `key` or a `value` child raises AttributeError. */
  function PropertiesOf(ps: seq<Element>): (r: Result<Properties>)
    ensures r.Ok? <==> forall i :: 0 <= i < |ps| ==> Readable(ps[i])
    decreases |ps|
  {
    if |ps| == 0 then Ok(map[])
    else
      var n := |ps| - 1;
      var m :- PropertiesOf(ps[..n]);
      AllSnoc(ps, ps[..n], Readable);
      if Readable(ps[n]) then Ok(m[Find(ps[n], "key").value.text := Find(ps[n], "value").value.text])
      else Err("AttributeError: 'NoneType' object has no attribute 'text'")
  }

  /** A property with both a `key` and a `value` child. */
  predicate Readable(p: Element) {
    Find(p, "key").Some? && Find(p, "value").Some?
  }

  /** `properties`: the map read from every `property` child. */
  function PropertiesIn(e: Element): Result<Properties> {
    PropertiesOf(FindAll(e, "property"))
  }

  /** The map a dict of string properties reads back as: each key and value through the
      text an element parsed from it has, in the dict's iteration order. */
  function PropsMap(props: seq<(string, string)>): Properties
    decreases |props|
  {
    if |props| == 0 then map[]
    else
      var n := |props| - 1;
      PropsMap(props[..n])[ParsedText(props[n].0) := ParsedText(props[n].1)]
  }

  /** The keys of a dict are distinct. */
  predicate DistinctKeys(props: seq<(string, string)>) {
    forall i, j :: 0 <= i < j < |props| ==> props[i].0 != props[j].0
  }

  lemma {:induction false} FindInProperty(kv: (string, string))
    ensures Find(PropertyElement(kv), "key") == Some(Parsed("key", kv.0))
    ensures Find(PropertyElement(kv), "value") == Some(Parsed("value", kv.1))
  {
    var cs := PropertyElement(kv).children;
    assert FirstIndex(cs, IsTag("key")) == Some(0);
    FirstIndexIs(cs, IsTag("value"), 1);
  }

  /** Writing properties and reading them back gives the dict's map. */
  lemma {:induction false} PropertiesRoundTrip(props: seq<(string, string)>)
    ensures PropertiesOf(Map(props, PropertyElement)) == Ok(PropsMap(props))
    decreases |props|
  {
    if |props| > 0 {
      var n := |props| - 1;
      var ps := Map(props, PropertyElement);
      assert ps[..n] == Map(props[..n], PropertyElement);
      PropertiesRoundTrip(props[..n]);
      FindInProperty(props[n]);
    }
  }

  /** With distinct keys every written property reads back with its own value. */
  lemma {:induction false} PropsMapReads(props: seq<(string, string)>, i: nat)
    requires DistinctKeys(props) && i < |props|
    ensures ParsedText(props[i].0) in PropsMap(props)
    ensures PropsMap(props)[ParsedText(props[i].0)] == ParsedText(props[i].1)
    decreases |props|
  {
    var n := |props| - 1;
    if i < n {
      assert DistinctKeys(props[..n]);
      assert props[..n][i] == props[i];
      PropsMapReads(props[..n], i);
      assert props[i].0 != props[n].0;
    }
  }

  /** No key is read that was not written. */
  lemma {:induction false} PropsMapKeys(props: seq<(string, string)>)
    ensures forall k :: k in PropsMap(props) ==> exists i :: 0 <= i < |props| && k == ParsedText(props[i].0)
    decreases |props|
  {
    if |props| > 0 {
      var n := |props| - 1;
      PropsMapKeys(props[..n]);
      forall k | k in PropsMap(props)
        ensures exists i :: 0 <= i < |props| && k == ParsedText(props[i].0)
      {
        if k != ParsedText(props[n].0) {
          assert k in PropsMap(props[..n]);
          var i :| 0 <= i < n && k == ParsedText(props[..n][i].0);
          assert props[..n][i] == props[i];
        }
      }
    }
  }

  // ---------------------------------------------------------------------------
  // Entries with an id, a plugin id and properties

  /** `<tag id="id" pluginId="pluginId">properties</tag>` */
  function Entry(tag: string, id: string, pluginId: string, props: seq<(string, string)>): Element {
    Element(tag, map["id" := id, "pluginId" := pluginId], None, Map(props, PropertyElement))
  }

  /** A written entry reads back its id, plugin id and properties. */
  lemma {:induction false} EntryReads(tag: string, id: string, pluginId: string, props: seq<(string, string)>)
    ensures var e := Entry(tag, id, pluginId, props);
      Get(e.attrs, "id") == Some(id) && Get(e.attrs, "pluginId") == Some(pluginId)
      && PropertiesIn(e) == Ok(PropsMap(props))
  {
    var e := Entry(tag, id, pluginId, props);
    FilterKeepsAll(e.children, IsTag("property"));
    PropertiesRoundTrip(props);
  }

  /** Appending an entry (`ensure_auth_config`, `ensure_profile`): no deduplication, the
      entry is always added last. */
  function AppendEntry(c: Element, tag: string, id: string, pluginId: string, props: seq<(string, string)>): (r: Element)
    ensures FindAll(r, tag) == FindAll(c, tag) + [Entry(tag, id, pluginId, props)]
    ensures forall t :: t != tag ==> FindAll(r, t) == FindAll(c, t)
    ensures r.tag == c.tag && r.attrs == c.attrs
  {
    var x := Entry(tag, id, pluginId, props);
    FindAllAppend(c, x, tag);
    forall t | t != tag
      ensures FindAll(Append(c, x), t) == FindAll(c, t)
    {
      FindAllAppend(c, x, t);
    }
    Append(c, x)
  }

  /** An entry of that tag whose `id` (read with `get`, so a missing one matches nothing)
      is the given one. */
  function HasId(tag: string, id: string): Element -> bool {
    HasAttrValue(tag, "id", id)
  }

  /** `ensure_replacement_of_auth_config` / `ensure_replacement_of_profile`: the first entry
      with that id goes, then the new entry is appended. */
  function ReplaceFirstEntry(c: Element, tag: string, id: string, pluginId: string, props: seq<(string, string)>): (r: Element)
    ensures r.tag == c.tag && r.attrs == c.attrs
    ensures |FindAll(r, tag)| > 0 && FindAll(r, tag)[|FindAll(r, tag)| - 1] == Entry(tag, id, pluginId, props)
  {
    AppendEntry(c.(children := RemoveFirst(c.children, HasId(tag, id))), tag, id, pluginId, props)
  }

  /** Entries with other ids stay as they were, in order, and there are as many entries
      with that id as before (one, if there was none): the first is replaced. */
  lemma {:induction false} ReplaceFirstEntryReads(c: Element, tag: string, id: string, pluginId: string, props: seq<(string, string)>)
    ensures var r := ReplaceFirstEntry(c, tag, id, pluginId, props);
      var p := HasId(tag, id);
      var before := |Filter(FindAll(c, tag), p)|;
      && Filter(FindAll(r, tag), Not(p)) == Filter(FindAll(c, tag), Not(p))
      && |Filter(FindAll(r, tag), p)| == (if before == 0 then 1 else before)
      && (forall t :: t != tag ==> FindAll(r, t) == FindAll(c, t))
  {
    var p := HasId(tag, id);
    var s := IsTag(tag);
    var cs := c.children;
    var ds := RemoveFirst(cs, p);
    var x := Entry(tag, id, pluginId, props);
    var r := ReplaceFirstEntry(c, tag, id, pluginId, props);
    assert FindAll(r, tag) == Filter(ds, s) + [x];
    assert Filter([x], p) == [x] && Filter([x], Not(p)) == [] by {
      assert p(x);
    }
    assert Filter(FindAll(r, tag), Not(p)) == Filter(FindAll(c, tag), Not(p)) by {
      var conj := (e: Element) => s(e) && Not(p)(e);
      FilterAppend(Filter(ds, s), [x], Not(p));
      FilterFilter(ds, s, Not(p), conj);
      FilterFilter(ds, Not(p), s, conj);
      FilterRemoveFirst(cs, p);
      FilterFilter(cs, Not(p), s, conj);
      FilterFilter(cs, s, Not(p), conj);
    }
    assert |Filter(FindAll(r, tag), p)| == |Filter(ds, p)| + 1 by {
      FilterAppend(Filter(ds, s), [x], p);
      FilterFilter(ds, s, p, p);
    }
    assert |Filter(ds, p)| + 1 == (if |Filter(FindAll(c, tag), p)| == 0 then 1 else |Filter(FindAll(c, tag), p)|) by {
      FilterFilter(cs, s, p, p);
      FilterRemoveFirst(cs, p);
    }
    forall t | t != tag
      ensures FindAll(r, t) == FindAll(c, t)
    {
      RemoveFirstKeepsOthers(cs, p, IsTag(t));
    }
  }

  /** `__len__` of a list manager: the number of entries of its one tag. */
  function Count(c: Element, tag: string): nat {
    |FindAll(c, tag)|
  }

  /** `__getitem__` of a list manager: indexes the entries of its one tag. */
  function At(c: Element, tag: string, index: PyIndex, what: string): (r: Result<Element>)
    ensures r.Ok? ==> r.value in FindAll(c, tag) && r.value.tag == tag
    ensures r.Ok? <==> index.IntIndex? && -(Count(c, tag) as int) <= index.i < Count(c, tag)
  {
    FilterMembers(c.children, IsTag(tag));
    GetItem(FindAll(c, tag), index, what)
  }
}
