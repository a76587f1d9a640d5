/** The `artifactStores` element: `artifactStore` entries with an `id`, a `pluginId` and
    properties. The container is read through `PossiblyMissingElement`, so it may be absent. */
module ArtifactStores {
  import opened Wrappers
  import opened Seqs
  import opened Xml
  import opened Plugins

  /** `ArtifactStore.id`: raises KeyError when missing. */
  function StoreId(s: Element): (r: Result<string>)
    ensures r.Ok? <==> "id" in s.attrs
  {
    Required(s.attrs, "id")
  }

  /** `ArtifactStore.plugin_id`: raises KeyError when missing. */
  function StorePluginId(s: Element): (r: Result<string>)
    ensures r.Ok? <==> "pluginId" in s.attrs
  {
    Required(s.attrs, "pluginId")
  }

  /** `ArtifactStore == other`: compares the ids only. */
  function StoreEquals(a: Element, b: Element): (r: Result<bool>)
    ensures r.Ok? <==> "id" in a.attrs && "id" in b.attrs
    ensures r.Ok? ==> (r.value <==> a.attrs["id"] == b.attrs["id"])
  {
    var x :- StoreId(a);
    var y :- StoreId(b);
    Ok(x == y)
  }

  /** `artifact_store`: the stores, none when the container is absent. */
  function Stores(c: Option<Element>): (r: seq<Element>)
    ensures c.None? ==> r == []
    ensures forall s :: s in r ==> s.tag == "artifactStore"
  {
    PossiblyMissingFindAll(c, "artifactStore")
  }

  /** `str(v or '')`: a missing or empty value is written as the empty string. */
  function OrEmpty(kv: (string, Option<string>)): (string, string) {
    (kv.0, kv.1.GetOr(""))
  }

  /** `<artifactStore id=".." pluginId="..">properties</artifactStore>` */
  function StoreElement(id: string, pluginId: string, props: seq<(string, Option<string>)>): Element {
    Entry("artifactStore", id, pluginId, Map(props, OrEmpty))
  }

  /** `ensure_artifact_store(id, plugin_id, properties)`: always appends; appending to an
      absent container raises. Gives the new container and the store. */
  function EnsureArtifactStore(c: Option<Element>, id: string, pluginId: string, props: seq<(string, Option<string>)>): (r: Result<(Element, Element)>)
    ensures r.Ok? <==> c.Some?
    ensures r.Ok? ==> Stores(Some(r.value.0)) == Stores(c) + [r.value.1]
  {
    match c
    case None => Err("AttributeError: 'NoneType' object has no attribute 'append'")
    case Some(e) => Ok((AppendEntry(e, "artifactStore", id, pluginId, Map(props, OrEmpty)), StoreElement(id, pluginId, props)))
  }

  /** A stored property that was missing or empty reads back as no text; any other value
      reads back as written. */
  lemma {:induction false} StoreReads(id: string, pluginId: string, props: seq<(string, Option<string>)>)
    ensures var s := StoreElement(id, pluginId, props);
      StoreId(s) == Ok(id) && StorePluginId(s) == Ok(pluginId)
      && PropertiesIn(s) == Ok(PropsMap(Map(props, OrEmpty)))
    ensures forall i :: 0 <= i < |props| && (props[i].1.None? || props[i].1 == Some("")) ==>
      ParsedText(Map(props, OrEmpty)[i].1) == None
  {
    EntryReads("artifactStore", id, pluginId, Map(props, OrEmpty));
  }

  /** A store the replacement removes: same id and same plugin id. */
  function SameStore(id: string, pluginId: string): Element -> bool {
    (s: Element) => s.tag == "artifactStore" && "id" in s.attrs && s.attrs["id"] == id
      && "pluginId" in s.attrs && s.attrs["pluginId"] == pluginId
  }

  /** The replacement loop reads `id` of every store and, because of the short-circuit
      `and`, `plugin_id` only of those whose id matches; either read raises KeyError. */
  predicate ReadableFor(c: Option<Element>, id: string) {
    forall s :: s in Stores(c) ==> "id" in s.attrs && (s.attrs["id"] == id ==> "pluginId" in s.attrs)
  }

  /** `ensure_replacement_of_artifact_store(id, plugin_id, properties)`: every store with
      that id and plugin id goes, then the new store is appended. */
  function EnsureReplacementOfArtifactStore(c: Option<Element>, id: string, pluginId: string, props: seq<(string, Option<string>)>): (r: Result<(Element, Element)>)
    ensures r.Ok? <==> ReadableFor(c, id) && c.Some?
    ensures r.Ok? ==> StoreId(r.value.1) == Ok(id) && StorePluginId(r.value.1) == Ok(pluginId)
  {
    if !ReadableFor(c, id) then Err("KeyError: id")
    else match c
      case None => Err("AttributeError: 'NoneType' object has no attribute 'append'")
      case Some(e) =>
        StoreReads(id, pluginId, props);
        EnsureArtifactStore(Some(e.(children := Filter(e.children, Not(SameStore(id, pluginId))))), id, pluginId, props)
  }

  /** Afterwards the new store is the only one with that id and plugin id, and the other
      stores are there in their order. */
  lemma {:induction false} EnsureReplacementOfArtifactStoreReads(c: Option<Element>, id: string, pluginId: string, props: seq<(string, Option<string>)>)
    requires EnsureReplacementOfArtifactStore(c, id, pluginId, props).Ok?
    ensures var (e1, s) := EnsureReplacementOfArtifactStore(c, id, pluginId, props).value;
      var same := SameStore(id, pluginId);
      && Filter(Stores(Some(e1)), same) == [s]
      && Filter(Stores(Some(e1)), Not(same)) == Filter(Stores(c), Not(same))
  {
    var e := c.value;
    var same := SameStore(id, pluginId);
    var t := IsTag("artifactStore");
    var kept := Filter(e.children, Not(same));
    var x := StoreElement(id, pluginId, props);
    var none := (y: Element) => false;
    var conj := (y: Element) => t(y) && Not(same)(y);
    StoreReads(id, pluginId, props);
    FilterMembers(e.children, Not(same));
    FilterFilter(kept, t, same, none);
    FilterDropsAll(kept, none);
    FilterFilter(e.children, t, same, same);
    FilterAppend(Filter(kept, t), [x], same);
    FilterAppend(Filter(kept, t), [x], Not(same));
    FilterFilter(kept, t, Not(same), conj);
    FilterFilter(e.children, Not(same), conj, conj);
    FilterFilter(e.children, t, Not(same), conj);
    FilterFilter(e.children, Not(same), t, conj);
  }

  /** `len(artifact_stores)` */
  function StoreCount(c: Option<Element>): nat {
    |Stores(c)|
  }

  /** `artifact_stores[index]` */
  function StoreAt(c: Option<Element>, index: PyIndex): (r: Result<Element>)
    ensures r.Ok? ==> r.value in Stores(c)
    ensures r.Ok? <==> index.IntIndex? && -(StoreCount(c) as int) <= index.i < StoreCount(c)
  {
    GetItem(Stores(c), index, "ArtifactStores")
  }

  /** `make_empty()`: clears a present container; an absent one stays absent. */
  function MakeEmpty(c: Option<Element>): (r: Option<Element>)
    ensures r.Some? <==> c.Some?
    ensures Stores(r) == []
  {
    RemoveAllChildren(c, None)
  }
}
