/** The tree accessor layer: an immutable model of an ElementTree element, the
    find-or-create primitives of `Ensurance`, the null-safe reader
    `PossiblyMissingElement`, `move_all_to_end` and `ignore_patterns_in`.

    An ElementTree element is mutable and shared; here it is a value. An
    operation that mutates a node returns the updated node, and a
    find-or-create primitive returns an `Ensured` handle: the updated parent
    plus the position of the ensured child inside it.
 */
module Xml {
  import opened Wrappers
  import opened Seqs

  datatype Element = Element(tag: string, attrs: map<string, string>, text: Option<string>, children: seq<Element>)

  /** `<tag></tag>`: no attributes, no text, no children. */
  function Empty(tag: string): Element {
    Element(tag, map[], None, [])
  }

  /** The text ElementTree gives to the element parsed from `<t>s</t>`: an empty
      string between the tags parses as no text at all. */
  function ParsedText(s: string): (r: Option<string>)
    ensures r.Some? <==> s != ""
    ensures r.Some? ==> r.value == s
  {
    if s == "" then None else Some(s)
  }

  /** An element holding just the text `s`, with the text stored as given. */
  function TextElement(tag: string, s: string): Element {
    Element(tag, map[], Some(s), [])
  }

  /** The element ElementTree parses from `<tag>s</tag>`. */
  function Parsed(tag: string, s: string): (r: Element)
    ensures r.tag == tag && r.text == ParsedText(s) && r.children == [] && r.attrs == map[]
  {
    Element(tag, map[], ParsedText(s), [])
  }

  function IsTag(tag: string): Element -> bool {
    (c: Element) => c.tag == tag
  }

  /** `element.text` */
  function TextOf(c: Element): Option<string> {
    c.text
  }

  /** `element.findall(tag)`: the children with that tag, in document order. */
  function FindAll(e: Element, tag: string): (r: seq<Element>)
    ensures |r| <= |e.children|
    ensures forall i :: 0 <= i < |r| ==> r[i].tag == tag
  {
    Filter(e.children, IsTag(tag))
  }

  /** `element.find(tag)`: the first child with that tag, if any. */
  function Find(e: Element, tag: string): (r: Option<Element>)
    ensures r.Some? ==> r.value.tag == tag && r.value in e.children
    ensures r.None? <==> forall i :: 0 <= i < |e.children| ==> e.children[i].tag != tag
  {
    match FirstIndex(e.children, IsTag(tag))
    case None => None
    case Some(i) => Some(e.children[i])
  }

  /** `find` yields the head of what `findall` yields. */
  lemma {:induction false} FindIsFirstOfFindAll(e: Element, tag: string)
    ensures Find(e, tag).None? <==> FindAll(e, tag) == []
    ensures Find(e, tag).Some? ==> Find(e, tag).value == FindAll(e, tag)[0]
  {
    FirstIndexIsFilterHead(e.children, IsTag(tag));
  }

  /** `element.append(c)` */
  function Append(e: Element, c: Element): (r: Element)
    ensures |r.children| == |e.children| + 1
    ensures r.children[..|e.children|] == e.children && r.children[|e.children|] == c
  {
    e.(children := e.children + [c])
  }

  /** `findall` after an `append` sees the new child last when it has the tag. */
  lemma {:induction false} FindAllAppend(e: Element, c: Element, tag: string)
    ensures FindAll(Append(e, c), tag) == FindAll(e, tag) + (if c.tag == tag then [c] else [])
  {
    FilterAppend(e.children, [c], IsTag(tag));
  }

  /** `element.set(name, value)` */
  function SetAttr(e: Element, name: string, value: string): Element {
    e.(attrs := e.attrs[name := value])
  }

  /** `element.text = value` */
  function SetText(e: Element, value: Option<string>): Element {
    e.(text := value)
  }

  /** `attrib.get(name)`: an absent attribute reads as None. */
  function Get(attrs: map<string, string>, name: string): Option<string> {
    if name in attrs then Some(attrs[name]) else None
  }

  /** `attrib[name]`: an absent attribute raises KeyError. */
  function Required(attrs: map<string, string>, name: string): (r: Result<string>)
    ensures r.Ok? <==> name in attrs
    ensures r.Ok? ==> r.value == attrs[name]
  {
    if name in attrs then Ok(attrs[name]) else Err("KeyError: " + name)
  }

  /** `Ensurance.has_attribute` on a present element. */
  predicate HasAttribute(e: Element, name: string) {
    name in e.attrs
  }

  /** The handle an `Ensurance` method returns: the parent after the call and the
      position in it of the child that was found or created. */
  datatype Ensured = Ensured(parent: Element, index: nat)

  predicate Valid(h: Ensured) {
    h.index < |h.parent.children|
  }

  /** The child the handle points at. */
  function Child(h: Ensured): Element
    requires Valid(h)
  {
    h.parent.children[h.index]
  }

  /** The parent with the ensured child replaced by `c`: a mutation through the handle. */
  function Put(h: Ensured, c: Element): (r: Element)
    requires Valid(h)
    ensures |r.children| == |h.parent.children| && r.children[h.index] == c
  {
    h.parent.(children := h.parent.children[h.index := c])
  }

  /** Putting back the child a handle found changes nothing. */
  lemma {:induction false} PutChild(h: Ensured)
    requires Valid(h)
    ensures Put(h, Child(h)) == h.parent
  {
    assert h.parent.children[h.index := Child(h)] == h.parent.children;
  }

  // ---------------------------------------------------------------------------
  // Ensurance

  /** `ensure_child(tag)`: the first child with that tag, or a new empty one appended at the end. */
  function EnsureChild(e: Element, tag: string): (r: Ensured)
    ensures Valid(r) && Child(r).tag == tag
    ensures Find(e, tag).Some? ==> r.parent == e && Find(e, tag) == Some(Child(r))
    ensures Find(e, tag).Some? ==> forall j :: 0 <= j < r.index ==> e.children[j].tag != tag
    ensures Find(e, tag).None? ==> r.parent == Append(e, Empty(tag)) && r.index == |e.children|
  {
    match FirstIndex(e.children, IsTag(tag))
    case Some(i) => Ensured(e, i)
    case None => Ensured(Append(e, Empty(tag)), |e.children|)
  }

  /** A second `ensure_child` finds what the first one found or created and changes nothing. */
  lemma {:induction false} EnsureChildIdempotent(e: Element, tag: string)
    ensures var r := EnsureChild(e, tag); EnsureChild(r.parent, tag) == r
  {
    var r := EnsureChild(e, tag);
    if Find(e, tag).None? {
      assert forall j :: 0 <= j < |e.children| ==> r.parent.children[j] == e.children[j];
    }
  }

  /** `ensure_child(tag)` taken as the new parent and the child it found or created. */
  function EnsureFound(e: Element, tag: string): (r: (Element, Element))
    ensures r.1.tag == tag && Find(r.0, tag) == Some(r.1)
    ensures Find(e, tag).Some? ==> r == (e, Find(e, tag).value)
    ensures Find(e, tag).None? ==> r == (Append(e, Empty(tag)), Empty(tag))
    ensures |FindAll(r.0, tag)| == if Find(e, tag).None? then 1 else |FindAll(e, tag)|
    ensures forall t :: t != tag ==> FindAll(r.0, t) == FindAll(e, t)
    ensures r.0.tag == e.tag && r.0.attrs == e.attrs && r.0.text == e.text
  {
    var h := EnsureChild(e, tag);
    EnsureChildPutFinds(e, tag, Child(h));
    forall t | t != tag
      ensures FindAll(Put(h, Child(h)), t) == FindAll(e, t)
    {
      EnsureChildPutKeepsOthers(e, tag, Child(h), t);
    }
    PutChild(h);
    (h.parent, Child(h))
  }

  /** A second `ensure_child` finds the first one's child and changes nothing. */
  lemma {:induction false} EnsureFoundIdempotent(e: Element, tag: string)
    ensures EnsureFound(EnsureFound(e, tag).0, tag) == EnsureFound(e, tag)
  {
    EnsureChildIdempotent(e, tag);
  }

  /** `ensure_child(tag)` followed by `make_empty()` on it (the `ensure_replacement_of_*`
      pattern): the child is found or created and loses every child of its own, keeping its
      attributes. Gives the new parent and the emptied child. */
  function EnsureEmptyChild(e: Element, tag: string): (r: (Element, Element))
    ensures r.1.tag == tag && r.1.children == [] && Find(r.0, tag) == Some(r.1)
    ensures Find(e, tag).Some? ==> r.1.attrs == Find(e, tag).value.attrs
    ensures |FindAll(r.0, tag)| == if Find(e, tag).None? then 1 else |FindAll(e, tag)|
    ensures forall t :: t != tag ==> FindAll(r.0, t) == FindAll(e, t)
    ensures r.0.tag == e.tag && r.0.attrs == e.attrs && r.0.text == e.text
  {
    var h := EnsureChild(e, tag);
    var c := Child(h).(children := []);
    EnsureChildPutFinds(e, tag, c);
    forall t | t != tag
      ensures FindAll(Put(h, c), t) == FindAll(e, t)
    {
      EnsureChildPutKeepsOthers(e, tag, c, t);
    }
    (Put(h, c), c)
  }

  /** Replacing twice is replacing once. */
  lemma {:induction false} EnsureEmptyChildIdempotent(e: Element, tag: string)
    ensures EnsureEmptyChild(EnsureEmptyChild(e, tag).0, tag) == EnsureEmptyChild(e, tag)
  {
    var h := EnsureChild(e, tag);
    var c := Child(h).(children := []);
    var r := Put(h, c);
    assert EnsureChild(r, tag) == Ensured(r, h.index) by {
      EnsureChildIdempotent(e, tag);
      FirstIndexUpdate(h.parent.children, h.index, c, IsTag(tag));
    }
    assert Child(Ensured(r, h.index)) == c;
    PutChild(Ensured(r, h.index));
  }

  /** Changing the ensured child through its handle: afterwards it is the first child
      with its tag, and that tag has as many children as after `ensure_child`. */
  lemma {:induction false} EnsureChildPutFinds(e: Element, tag: string, c: Element)
    requires c.tag == tag
    ensures var r := Put(EnsureChild(e, tag), c);
      && Find(r, tag) == Some(c)
      && |FindAll(r, tag)| == (if Find(e, tag).None? then 1 else |FindAll(e, tag)|)
  {
    var h := EnsureChild(e, tag);
    var r := Put(h, c);
    FirstIndexIsFilterHead(e.children, IsTag(tag));
    if Find(e, tag).None? {
      assert r.children == e.children + [c];
      FilterAppend(e.children, [c], IsTag(tag));
      FilterDropsAll(e.children, IsTag(tag));
      assert FirstIndex([c], IsTag(tag)) == Some(0);
      FirstIndexAppendNone(e.children, [c], IsTag(tag));
    } else {
      FirstIndexUpdate(e.children, h.index, c, IsTag(tag));
      FilterUpdateMatch(e.children, h.index, c, IsTag(tag));
    }
  }

  /** Changing the ensured child leaves the children of every other tag as they were. */
  lemma {:induction false} EnsureChildPutKeepsOthers(e: Element, tag: string, c: Element, other: string)
    requires c.tag == tag && other != tag
    ensures FindAll(Put(EnsureChild(e, tag), c), other) == FindAll(e, other)
  {
    var h := EnsureChild(e, tag);
    if Find(e, tag).None? {
      assert Put(h, c).children == e.children + [c];
      FilterAppend(e.children, [c], IsTag(other));
    } else {
      FilterUpdateOther(e.children, h.index, c, IsTag(other));
    }
  }

  function HasText(tag: string, text: string): Element -> bool {
    (c: Element) => c.tag == tag && c.text == Some(text)
  }

  /** `ensure_child_with_text(tag, text)` as written: the new child is parsed from
      `<tag>text</tag>`, so for an empty `text` it has no text and matches nothing later. */
  function EnsureChildWithTextAsWritten(e: Element, tag: string, text: string): (r: Ensured)
    ensures Valid(r) && Child(r).tag == tag
    ensures FirstIndex(e.children, HasText(tag, text)).Some? ==> r.parent == e && Child(r).text == Some(text)
    ensures FirstIndex(e.children, HasText(tag, text)).None? ==>
      r.parent == Append(e, Parsed(tag, text)) && r.index == |e.children|
  {
    match FirstIndex(e.children, HasText(tag, text))
    case Some(i) => Ensured(e, i)
    case None => Ensured(Append(e, Parsed(tag, text)), |e.children|)
  }

  /** With the empty text, two calls append two children instead of one. */
  lemma {:induction false} EnsureChildWithTextAsWrittenDuplicatesEmpty()
    ensures var first := EnsureChildWithTextAsWritten(Empty("view"), "user", "").parent;
      |EnsureChildWithTextAsWritten(first, "user", "").parent.children| == 2
  {
    var first := EnsureChildWithTextAsWritten(Empty("view"), "user", "").parent;
    assert first.children == [Element("user", map[], None, [])];
    assert !HasText("user", "")(first.children[0]);
  }

  /** `ensure_child_with_text(tag, text)`, find-or-create keyed by tag plus text,
      with the created child holding `text` even when it is empty. */
  function EnsureChildWithText(e: Element, tag: string, text: string): (r: Ensured)
    ensures Valid(r) && Child(r).tag == tag && Child(r).text == Some(text)
    ensures FirstIndex(e.children, HasText(tag, text)).Some? ==>
      r.parent == e && forall j :: 0 <= j < r.index ==> !HasText(tag, text)(e.children[j])
    ensures FirstIndex(e.children, HasText(tag, text)).None? ==>
      r.parent == Append(e, TextElement(tag, text)) && r.index == |e.children|
  {
    match FirstIndex(e.children, HasText(tag, text))
    case Some(i) => Ensured(e, i)
    case None => Ensured(Append(e, TextElement(tag, text)), |e.children|)
  }

  /** Apart from the empty text, the two versions agree. */
  lemma EnsureChildWithTextAgrees(e: Element, tag: string, text: string)
    requires text != ""
    ensures EnsureChildWithTextAsWritten(e, tag, text) == EnsureChildWithText(e, tag, text)
  {
  }

  lemma {:induction false} EnsureChildWithTextIdempotent(e: Element, tag: string, text: string)
    ensures var r := EnsureChildWithText(e, tag, text); EnsureChildWithText(r.parent, tag, text) == r
  {
    var r := EnsureChildWithText(e, tag, text);
    if FirstIndex(e.children, HasText(tag, text)).None? {
      assert forall j :: 0 <= j < |e.children| ==> r.parent.children[j] == e.children[j];
    }
  }

  function HasAttrValue(tag: string, name: string, value: string): Element -> bool {
    (c: Element) => c.tag == tag && name in c.attrs && c.attrs[name] == value
  }

  /** Every child with that tag carries the attribute, so reading it raises no KeyError. */
  predicate AllCarry(e: Element, tag: string, name: string) {
    forall i :: 0 <= i < |e.children| && e.children[i].tag == tag ==> name in e.children[i].attrs
  }

  /** `ensure_child_with_attribute(tag, name, value)`: the first child with that tag
      and attribute value, or a new child carrying just that attribute. The list
      comprehension reads the attribute of every same-tag child, so one that lacks
      it raises KeyError. */
  function EnsureChildWithAttribute(e: Element, tag: string, name: string, value: string): (r: Result<Ensured>)
    ensures r.Err? <==> exists i :: 0 <= i < |e.children| && e.children[i].tag == tag && name !in e.children[i].attrs
    ensures r.Ok? ==> Valid(r.value) && HasAttrValue(tag, name, value)(Child(r.value))
    ensures r.Ok? && FirstIndex(e.children, HasAttrValue(tag, name, value)).Some? ==>
      r.value.parent == e && forall j :: 0 <= j < r.value.index ==> !HasAttrValue(tag, name, value)(e.children[j])
    ensures r.Ok? && FirstIndex(e.children, HasAttrValue(tag, name, value)).None? ==>
      r.value.parent == Append(e, Element(tag, map[name := value], None, [])) && r.value.index == |e.children|
  {
    if !AllCarry(e, tag, name) then Err("KeyError: " + name)
    else match FirstIndex(e.children, HasAttrValue(tag, name, value))
      case Some(i) => Ok(Ensured(e, i))
      case None => Ok(Ensured(Append(e, Element(tag, map[name := value], None, [])), |e.children|))
  }

  /** The handle points at the first match of its parent, and the parent carries the
      attribute on every child of the tag. */
  lemma {:induction false} EnsureChildWithAttributeSlot(e: Element, tag: string, name: string, value: string)
    requires EnsureChildWithAttribute(e, tag, name, value).Ok?
    ensures var k := EnsureChildWithAttribute(e, tag, name, value).value;
      && FirstIndex(k.parent.children, HasAttrValue(tag, name, value)) == Some(k.index)
      && AllCarry(k.parent, tag, name)
  {
    var k := EnsureChildWithAttribute(e, tag, name, value).value;
    EnsureChildWithAttributeCarries(e, tag, name, value);
    if FirstIndex(e.children, HasAttrValue(tag, name, value)).None? {
      assert forall j :: 0 <= j < |e.children| ==> k.parent.children[j] == e.children[j];
    }
    FirstIndexIs(k.parent.children, HasAttrValue(tag, name, value), k.index);
  }

  /** The handle's parent still carries the attribute on every child of the tag. */
  lemma {:induction false} EnsureChildWithAttributeCarries(e: Element, tag: string, name: string, value: string)
    requires EnsureChildWithAttribute(e, tag, name, value).Ok?
    ensures AllCarry(EnsureChildWithAttribute(e, tag, name, value).value.parent, tag, name)
  {
    var k := EnsureChildWithAttribute(e, tag, name, value).value;
    if FirstIndex(e.children, HasAttrValue(tag, name, value)).None? {
      assert forall j :: 0 <= j < |e.children| ==> k.parent.children[j] == e.children[j];
    }
  }

  /** Writing a child that carries the attribute through a handle keeps every child of
      the tag carrying it. */
  lemma PutCarries(h: Ensured, c: Element, tag: string, name: string)
    requires Valid(h) && AllCarry(h.parent, tag, name)
    requires c.tag == tag ==> name in c.attrs
    ensures AllCarry(Put(h, c), tag, name)
  {
  }

  /** On an element whose only child matches, the match is that child, and writing
      through the handle replaces it. */
  lemma {:induction false} EnsureChildWithAttributeOnly(e: Element, tag: string, name: string, value: string, u: Element)
    requires |e.children| == 1 && HasAttrValue(tag, name, value)(e.children[0])
    ensures EnsureChildWithAttribute(e, tag, name, value) == Ok(Ensured(e, 0))
    ensures Put(Ensured(e, 0), u) == e.(children := [u])
  {
    assert AllCarry(e, tag, name);
    assert e.children[0 := u] == [u];
  }

  lemma {:induction false} EnsureChildWithAttributeIdempotent(e: Element, tag: string, name: string, value: string)
    requires EnsureChildWithAttribute(e, tag, name, value).Ok?
    ensures var r := EnsureChildWithAttribute(e, tag, name, value).value;
      EnsureChildWithAttribute(r.parent, tag, name, value) == Ok(r)
  {
    var r := EnsureChildWithAttribute(e, tag, name, value).value;
    if FirstIndex(e.children, HasAttrValue(tag, name, value)).None? {
      assert forall j :: 0 <= j < |e.children| ==> r.parent.children[j] == e.children[j];
      assert AllCarry(r.parent, tag, name);
    }
  }

  /** When the first child with the tag already carries the value (or there is no such
      child), the child the call gives is the one `find(tag)` reads, also after it is changed. */
  lemma {:induction false} EnsureChildWithAttributePutFinds(e: Element, tag: string, name: string, value: string, c: Element)
    requires EnsureChildWithAttribute(e, tag, name, value).Ok? && c.tag == tag
    requires Find(e, tag).None? || HasAttrValue(tag, name, value)(Find(e, tag).value)
    ensures Find(Put(EnsureChildWithAttribute(e, tag, name, value).value, c), tag) == Some(c)
  {
    var k := EnsureChildWithAttribute(e, tag, name, value).value;
    var p := HasAttrValue(tag, name, value);
    if Find(e, tag).None? {
      assert FirstIndex(e.children, p).None?;
      assert Put(k, c).children == e.children + [c];
      assert FirstIndex([c], IsTag(tag)) == Some(0);
      FirstIndexAppendNone(e.children, [c], IsTag(tag));
    } else {
      var j := FirstIndex(e.children, IsTag(tag)).value;
      FirstIndexIs(e.children, p, j);
      FirstIndexUpdate(e.children, j, c, IsTag(tag));
    }
  }

  /** The call never adds a second child with the same tag and attribute value:
      the number of such children becomes one if there were none and stays as it was otherwise. */
  lemma {:induction false} EnsureChildWithAttributeNoDuplicate(e: Element, tag: string, name: string, value: string)
    requires EnsureChildWithAttribute(e, tag, name, value).Ok?
    ensures var r := EnsureChildWithAttribute(e, tag, name, value).value;
      var before := |Filter(e.children, HasAttrValue(tag, name, value))|;
      |Filter(r.parent.children, HasAttrValue(tag, name, value))| == if before == 0 then 1 else before
  {
    var p := HasAttrValue(tag, name, value);
    FirstIndexIsFilterHead(e.children, p);
    if FirstIndex(e.children, p).None? {
      FilterAppend(e.children, [Element(tag, map[name := value], None, [])], p);
    }
  }

  /** `ensure_child(container).ensure_child_with_attribute(tag, name, value)`: find-or-create
      a keyed child inside a container that is itself found or created. Gives the new
      element and the keyed child. */
  function EnsureKeyedIn(e: Element, container: string, tag: string, name: string, value: string): (r: Result<(Element, Element)>)
    ensures r.Ok? <==> EnsureChildWithAttribute(Child(EnsureChild(e, container)), tag, name, value).Ok?
    ensures r.Ok? ==> r.value.0.tag == e.tag && r.value.0.attrs == e.attrs && r.value.0.text == e.text
    ensures r.Ok? ==> HasAttrValue(tag, name, value)(r.value.1)
  {
    var h := EnsureChild(e, container);
    var k :- EnsureChildWithAttribute(Child(h), tag, name, value);
    Ok((Put(h, k.parent), Child(k)))
  }

  /** The container is there afterwards and holds the keyed child. */
  lemma {:induction false} EnsureKeyedInFinds(e: Element, container: string, tag: string, name: string, value: string)
    requires EnsureKeyedIn(e, container, tag, name, value).Ok?
    ensures var (r, c) := EnsureKeyedIn(e, container, tag, name, value).value;
      Find(r, container).Some? && c in Find(r, container).value.children
      && FirstIndex(Find(r, container).value.children, HasAttrValue(tag, name, value)).Some?
  {
    var h := EnsureChild(e, container);
    var k := EnsureChildWithAttribute(Child(h), tag, name, value).value;
    EnsureChildPutFinds(e, container, k.parent);
    FirstIndexIsFilterHead(k.parent.children, HasAttrValue(tag, name, value));
    FilterMembers(k.parent.children, HasAttrValue(tag, name, value));
    assert Child(k) in Filter(k.parent.children, HasAttrValue(tag, name, value));
  }

  /** A second call finds the child the first one found or created, and changes nothing. */
  lemma {:induction false} EnsureKeyedInIdempotent(e: Element, container: string, tag: string, name: string, value: string)
    requires EnsureKeyedIn(e, container, tag, name, value).Ok?
    ensures var r := EnsureKeyedIn(e, container, tag, name, value);
      EnsureKeyedIn(r.value.0, container, tag, name, value) == r
  {
    var h := EnsureChild(e, container);
    var k := EnsureChildWithAttribute(Child(h), tag, name, value).value;
    var r := Put(h, k.parent);
    EnsureChildPutFinds(e, container, k.parent);
    var h2 := EnsureChild(r, container);
    assert h2.parent == r && Child(h2) == k.parent;
    EnsureChildWithAttributeIdempotent(Child(h), tag, name, value);
    PutChild(h2);
  }

  /** The container never gains a second child with the same key: the number of such
      children becomes one if there were none and stays as it was otherwise. */
  lemma {:induction false} EnsureKeyedInNoDuplicate(e: Element, container: string, tag: string, name: string, value: string)
    requires EnsureKeyedIn(e, container, tag, name, value).Ok?
    ensures var r := EnsureKeyedIn(e, container, tag, name, value).value.0;
      var p := HasAttrValue(tag, name, value);
      var before := |Filter(PossiblyMissingIterator(PossiblyMissingChild(Some(e), container)), p)|;
      Find(r, container).Some? &&
      |Filter(Find(r, container).value.children, p)| == if before == 0 then 1 else before
  {
    var h := EnsureChild(e, container);
    var k := EnsureChildWithAttribute(Child(h), tag, name, value).value;
    EnsureChildPutFinds(e, container, k.parent);
    EnsureChildWithAttributeNoDuplicate(Child(h), tag, name, value);
    assert Child(h).children == PossiblyMissingIterator(PossiblyMissingChild(Some(e), container));
  }

  /** Dropping children and then finding by tag is finding by tag and then dropping. */
  lemma {:induction false} FindAllFilter(e: Element, tag: string, p: Element -> bool)
    ensures FindAll(e.(children := Filter(e.children, p)), tag) == Filter(FindAll(e, tag), p)
  {
    var conj := (c: Element) => IsTag(tag)(c) && p(c);
    FilterFilter(e.children, p, IsTag(tag), conj);
    FilterFilter(e.children, IsTag(tag), p, conj);
  }

  /** The removal idiom `for c in [c for c in children if c.name == value]: remove(c)`:
      every child with that tag and attribute value goes. The comprehension reads the
      attribute of every same-tag child, so one that lacks it raises KeyError. */
  function RemoveKeyed(e: Element, tag: string, name: string, value: string): (r: Result<Element>)
    ensures r.Ok? <==> AllCarry(e, tag, name)
    ensures r.Ok? ==> r.value.tag == e.tag && r.value.attrs == e.attrs && r.value.text == e.text
  {
    if !AllCarry(e, tag, name) then Err("KeyError: " + name)
    else Ok(e.(children := Filter(e.children, Not(HasAttrValue(tag, name, value)))))
  }

  /** No child with that value is left, the other same-tag children keep their order,
      children of other tags are untouched, and without a match nothing changes. */
  lemma {:induction false} RemoveKeyedReads(e: Element, tag: string, name: string, value: string)
    requires RemoveKeyed(e, tag, name, value).Ok?
    ensures var r := RemoveKeyed(e, tag, name, value).value;
      var p := HasAttrValue(tag, name, value);
      && Filter(FindAll(r, tag), p) == []
      && Filter(FindAll(r, tag), Not(p)) == Filter(FindAll(e, tag), Not(p))
      && (forall t :: t != tag ==> FindAll(r, t) == FindAll(e, t))
      && (Filter(e.children, p) == [] ==> r == e)
  {
    var p := HasAttrValue(tag, name, value);
    var s := IsTag(tag);
    var cs := e.children;
    var kept := Filter(cs, Not(p));
    var none := (c: Element) => false;
    var conj := (c: Element) => s(c) && Not(p)(c);
    FilterMembers(cs, Not(p));
    FilterFilter(kept, s, p, none);
    FilterDropsAll(kept, none);
    FilterFilter(kept, s, Not(p), conj);
    FilterFilter(cs, Not(p), conj, conj);
    FilterFilter(cs, s, Not(p), conj);
    forall t | t != tag
      ensures Filter(kept, IsTag(t)) == Filter(cs, IsTag(t))
    {
      FilterFilter(cs, Not(p), IsTag(t), IsTag(t));
    }
    if Filter(cs, p) == [] {
      FilterMembers(cs, p);
      FilterKeepsAll(cs, Not(p));
    }
  }

  /** The text of the first `name` child of `c`, read through `PossiblyMissingElement`. */
  function DescendantText(c: Element, name: string): Option<string> {
    PossiblyMissingText(PossiblyMissingChild(Some(c), name))
  }

  function HasDescendant(tag: string, name: string, value: string): Element -> bool {
    (c: Element) => c.tag == tag && DescendantText(c, name) == Some(value)
  }

  /** The child `ensure_child_with_descendant` parses from `<tag><name>value</name></tag>`. */
  function ParsedWithDescendant(tag: string, name: string, value: string): Element {
    Element(tag, map[], None, [Parsed(name, value)])
  }

  /** `ensure_child_with_descendant(tag, name, value)` as written: the first child with
      that tag whose first `name` child has text `value`, or a new child parsed from
      markup, whose descendant has no text when `value` is empty. */
  function EnsureChildWithDescendantAsWritten(e: Element, tag: string, name: string, value: string): (r: Ensured)
    ensures Valid(r) && Child(r).tag == tag
    ensures FirstIndex(e.children, HasDescendant(tag, name, value)).Some? ==>
      r.parent == e && DescendantText(Child(r), name) == Some(value) &&
      forall j :: 0 <= j < r.index ==> !HasDescendant(tag, name, value)(e.children[j])
    ensures FirstIndex(e.children, HasDescendant(tag, name, value)).None? ==>
      r.parent == Append(e, ParsedWithDescendant(tag, name, value)) && r.index == |e.children|
  {
    if FindAll(e, tag) == [] then
      FindIsFirstOfFindAll(e, tag);
      Ensured(Append(e, ParsedWithDescendant(tag, name, value)), |e.children|)
    else match FirstIndex(e.children, HasDescendant(tag, name, value))
      case Some(i) => Ensured(e, i)
      case None => Ensured(Append(e, ParsedWithDescendant(tag, name, value)), |e.children|)
  }

  /** With the empty value, two calls append two children instead of one. */
  lemma {:induction false} EnsureChildWithDescendantAsWrittenRepeatsEmpty()
    ensures var first := EnsureChildWithDescendantAsWritten(Empty("pipeline"), "materials", "git", "").parent;
      |EnsureChildWithDescendantAsWritten(first, "materials", "git", "").parent.children| == 2
  {
    var first := EnsureChildWithDescendantAsWritten(Empty("pipeline"), "materials", "git", "").parent;
    var c := first.children[0];
    assert first.children == [ParsedWithDescendant("materials", "git", "")];
    assert Find(c, "git") == Some(c.children[0]);
    assert !HasDescendant("materials", "git", "")(c);
  }

  /** The child the corrected ensure creates: its descendant holds `value` even when empty. */
  function WithDescendant(tag: string, name: string, value: string): Element {
    Element(tag, map[], None, [TextElement(name, value)])
  }

  /** `ensure_child_with_descendant(tag, name, value)`, find-or-create keyed by the
      descendant's text, with the created descendant holding `value` even when it is empty. */
  function EnsureChildWithDescendant(e: Element, tag: string, name: string, value: string): (r: Ensured)
    ensures Valid(r) && Child(r).tag == tag && DescendantText(Child(r), name) == Some(value)
    ensures FirstIndex(e.children, HasDescendant(tag, name, value)).Some? ==>
      r.parent == e && forall j :: 0 <= j < r.index ==> !HasDescendant(tag, name, value)(e.children[j])
    ensures FirstIndex(e.children, HasDescendant(tag, name, value)).None? ==>
      r.parent == Append(e, WithDescendant(tag, name, value)) && r.index == |e.children|
  {
    var w := WithDescendant(tag, name, value);
    assert Find(w, name) == Some(w.children[0]);
    if FindAll(e, tag) == [] then
      FindIsFirstOfFindAll(e, tag);
      Ensured(Append(e, w), |e.children|)
    else match FirstIndex(e.children, HasDescendant(tag, name, value))
      case Some(i) => Ensured(e, i)
      case None => Ensured(Append(e, w), |e.children|)
  }

  /** Apart from the empty value, the two versions agree. */
  lemma {:induction false} EnsureChildWithDescendantAgrees(e: Element, tag: string, name: string, value: string)
    requires value != ""
    ensures EnsureChildWithDescendantAsWritten(e, tag, name, value) == EnsureChildWithDescendant(e, tag, name, value)
  {
    assert ParsedWithDescendant(tag, name, value) == WithDescendant(tag, name, value);
  }

  /** The created child matches itself, so a second call finds it, for every value. */
  lemma {:induction false} EnsureChildWithDescendantIdempotent(e: Element, tag: string, name: string, value: string)
    ensures var r := EnsureChildWithDescendant(e, tag, name, value);
      EnsureChildWithDescendant(r.parent, tag, name, value) == r
  {
    var r := EnsureChildWithDescendant(e, tag, name, value);
    if FirstIndex(e.children, HasDescendant(tag, name, value)).None? {
      assert forall j :: 0 <= j < |e.children| ==> r.parent.children[j] == e.children[j];
      assert HasDescendant(tag, name, value)(r.parent.children[|e.children|]);
      assert FindAll(r.parent, tag) != [] by {
        FindIsFirstOfFindAll(r.parent, tag);
      }
    }
  }

  // ---------------------------------------------------------------------------
  // PossiblyMissingElement: a reader over a node that may be absent.

  function PossiblyMissingChild(o: Option<Element>, tag: string): (r: Option<Element>)
    ensures o.None? ==> r.None?
    ensures r.Some? ==> r.value.tag == tag && r.value in o.value.children
  {
    if o.None? then None else Find(o.value, tag)
  }

  function PossiblyMissingFindAll(o: Option<Element>, tag: string): (r: seq<Element>)
    ensures o.None? ==> r == []
    ensures forall i :: 0 <= i < |r| ==> r[i].tag == tag && r[i] in o.value.children
  {
    if o.None? then []
    else
      FilterMembers(o.value.children, IsTag(tag));
      FindAll(o.value, tag)
  }

  function PossiblyMissingIterator(o: Option<Element>): (r: seq<Element>)
    ensures o.None? ==> r == []
    ensures o.Some? ==> r == o.value.children
  {
    if o.None? then [] else o.value.children
  }

  function PossiblyMissingAttribute(o: Option<Element>, name: string): (r: Option<string>)
    ensures r.Some? <==> o.Some? && name in o.value.attrs
    ensures r.Some? ==> r.value == o.value.attrs[name]
  {
    if o.Some? && name in o.value.attrs then Some(o.value.attrs[name]) else None
  }

  function PossiblyMissingText(o: Option<Element>): (r: Option<string>)
    ensures o.None? ==> r.None?
    ensures o.Some? ==> r == o.value.text
  {
    if o.Some? then o.value.text else None
  }

  predicate PossiblyMissingHasAttribute(o: Option<Element>, name: string, value: string) {
    o.Some? && name in o.value.attrs && o.value.attrs[name] == value
  }

  /** Over an absent node nothing raises: every read is empty, absent or false,
      and a child of it is absent again. */
  lemma AbsentReadsNothing(tag: string, name: string, value: string)
    ensures PossiblyMissingChild(None, tag) == None
    ensures PossiblyMissingFindAll(None, tag) == []
    ensures PossiblyMissingIterator(None) == []
    ensures PossiblyMissingAttribute(None, name) == None
    ensures PossiblyMissingText(None) == None
    ensures !PossiblyMissingHasAttribute(None, name, value)
  {
  }

  function NotTag(tag: string): Element -> bool {
    Not(IsTag(tag))
  }

  /** `remove_all_children(tag)`: drops the children with that tag, or every child
      when no tag is given; an absent node stays absent. */
  function RemoveAllChildren(o: Option<Element>, tag: Option<string>): (r: Option<Element>)
    ensures r.Some? <==> o.Some?
    ensures r.Some? ==> r.value.tag == o.value.tag && r.value.attrs == o.value.attrs && r.value.text == o.value.text
    ensures r.Some? && tag.None? ==> r.value.children == []
    ensures r.Some? && tag.Some? ==> forall i :: 0 <= i < |r.value.children| ==> r.value.children[i].tag != tag.value
    ensures r.Some? && tag.Some? ==> |r.value.children| == |o.value.children| - |FindAll(o.value, tag.value)|
  {
    if o.None? then None
    else if tag.None? then Some(o.value.(children := []))
    else
      FilterSplitMultiset(o.value.children, IsTag(tag.value), NotTag(tag.value));
      assert |multiset(Filter(o.value.children, IsTag(tag.value)))| + |multiset(Filter(o.value.children, NotTag(tag.value)))|
        == |multiset(o.value.children)|;
      Some(o.value.(children := Filter(o.value.children, NotTag(tag.value))))
  }

  /** The survivors of `remove_all_children(tag)` are exactly the other-tag children, in their old order. */
  lemma {:induction false} RemoveAllChildrenKeepsOthers(e: Element, tag: string)
    ensures var r := RemoveAllChildren(Some(e), Some(tag)).value;
      (forall c :: c in r.children <==> c in e.children && c.tag != tag) &&
      multiset(r.children) + multiset(FindAll(e, tag)) == multiset(e.children)
  {
    FilterMembers(e.children, NotTag(tag));
    FilterSplitMultiset(e.children, IsTag(tag), NotTag(tag));
  }

  /** `remove_all_children(tag)` leaves the children of every other tag as they were. */
  lemma {:induction false} RemoveAllChildrenKeepsTag(e: Element, tag: string, other: string)
    requires other != tag
    ensures FindAll(RemoveAllChildren(Some(e), Some(tag)).value, other) == FindAll(e, other)
  {
    FilterFilter(e.children, NotTag(tag), IsTag(other), IsTag(other));
  }

  /** `remove_attribute(name)`: deletes just that attribute; absent node or attribute: no change. */
  function RemoveAttribute(o: Option<Element>, name: string): (r: Option<Element>)
    ensures r.Some? <==> o.Some?
    ensures r.Some? ==> name !in r.value.attrs
    ensures r.Some? ==> forall k :: k in o.value.attrs && k != name ==> k in r.value.attrs && r.value.attrs[k] == o.value.attrs[k]
    ensures r.Some? ==> r.value.attrs.Keys <= o.value.attrs.Keys
    ensures r.Some? ==> r.value.children == o.value.children && r.value.tag == o.value.tag && r.value.text == o.value.text
    ensures o.Some? && name !in o.value.attrs ==> r == o
  {
    if o.Some? && name in o.value.attrs then Some(o.value.(attrs := o.value.attrs - {name})) else o
  }

  /** A mutation applied through `possibly_missing_child(tag)`: it reaches the first
      child with that tag, in place, and does nothing when there is none. */
  function ModifyChild(e: Element, tag: string, f: Element -> Element): (r: Element)
    ensures r.tag == e.tag && r.attrs == e.attrs && r.text == e.text && |r.children| == |e.children|
    ensures Find(e, tag).None? ==> r == e
  {
    match FirstIndex(e.children, IsTag(tag))
    case None => e
    case Some(i) => e.(children := e.children[i := f(e.children[i])])
  }

  /** Reaching a child that exists through `possibly_missing_child` is the same as through `ensure_child`. */
  lemma ModifyChildIsPut(e: Element, tag: string, f: Element -> Element)
    requires Find(e, tag).Some?
    ensures ModifyChild(e, tag, f) == Put(EnsureChild(e, tag), f(Find(e, tag).value))
  {
  }

  // ---------------------------------------------------------------------------
  // move_all_to_end and its use at several tags in turn.

  /** `move_all_to_end(parent, tag)`, taken whole: every child with that tag goes
      to the end. `Seqs.MoveToEndLoop` proves the remove-and-append loop of the
      source computes this. */
  function MoveAllToEnd(e: Element, tag: string): (r: Element)
    ensures r.tag == e.tag && r.attrs == e.attrs && r.text == e.text
    ensures multiset(r.children) == multiset(e.children)
    ensures Filter(r.children, NotTag(tag)) == Filter(e.children, NotTag(tag))
    ensures Filter(r.children, IsTag(tag)) == Filter(e.children, IsTag(tag))
    ensures forall i, j :: 0 <= i < j < |r.children| && r.children[i].tag == tag ==> r.children[j].tag == tag
  {
    MoveToEndFacts(e.children, tag);
    e.(children := MoveToEnd(e.children, IsTag(tag)))
  }

  lemma {:induction false} MoveToEndFacts(cs: seq<Element>, tag: string)
    ensures var m := MoveToEnd(cs, IsTag(tag));
      && multiset(m) == multiset(cs)
      && Filter(m, NotTag(tag)) == Filter(cs, NotTag(tag))
      && Filter(m, IsTag(tag)) == Filter(cs, IsTag(tag))
      && forall i, j :: 0 <= i < j < |m| && m[i].tag == tag ==> m[j].tag == tag
  {
    MoveToEndPermutes(cs, IsTag(tag));
    MoveToEndKeepsGroups(cs, tag);
    MoveToEndMatchesLast(cs, tag);
  }

  lemma {:induction false} MoveToEndKeepsGroups(cs: seq<Element>, tag: string)
    ensures Filter(MoveToEnd(cs, IsTag(tag)), NotTag(tag)) == Filter(cs, NotTag(tag))
    ensures Filter(MoveToEnd(cs, IsTag(tag)), IsTag(tag)) == Filter(cs, IsTag(tag))
  {
    MoveToEndFilters(cs, IsTag(tag));
  }

  lemma {:induction false} MoveToEndMatchesLast(cs: seq<Element>, tag: string)
    ensures var m := MoveToEnd(cs, IsTag(tag));
      forall i, j :: 0 <= i < j < |m| && m[i].tag == tag ==> m[j].tag == tag
  {
    var a := Filter(cs, NotTag(tag));
    var b := Filter(cs, IsTag(tag));
    var m := a + b;
    forall i, j | 0 <= i < j < |m| && m[i].tag == tag
      ensures m[j].tag == tag
    {
      if i >= |a| {
        assert m[j] == b[j - |a|];
      }
    }
  }

  lemma {:induction false} MoveAllToEndIdempotent(e: Element, tag: string)
    ensures MoveAllToEnd(MoveAllToEnd(e, tag), tag) == MoveAllToEnd(e, tag)
  {
    MoveToEndIdempotent(e.children, IsTag(tag));
  }

  function NotIn(tags: seq<string>): Element -> bool {
    (c: Element) => c.tag !in tags
  }

  predicate Distinct(tags: seq<string>) {
    forall i, j :: 0 <= i < j < |tags| ==> tags[i] != tags[j]
  }

  /** The tail of a distinct list is distinct and does not hold the head. */
  lemma {:induction false} DistinctTail(tags: seq<string>)
    requires |tags| > 0 && Distinct(tags)
    ensures Distinct(tags[1..]) && tags[0] !in tags[1..]
  {
    var rest := tags[1..];
    forall i, j | 0 <= i < j < |rest|
      ensures rest[i] != rest[j]
    {
      assert rest[i] == tags[i + 1] && rest[j] == tags[j + 1];
    }
    forall j | 0 <= j < |rest|
      ensures rest[j] != tags[0]
    {
      assert rest[j] == tags[j + 1];
    }
  }

  /** `move_all_to_end` at each tag of `tags` in turn. */
  function MoveTagsToEnd(cs: seq<Element>, tags: seq<string>): seq<Element>
    decreases |tags|
  {
    if |tags| == 0 then cs
    else MoveToEnd(MoveTagsToEnd(cs, tags[..|tags| - 1]), IsTag(tags[|tags| - 1]))
  }

  /** One group per tag of `tags`, in the order of `tags`. */
  function Buckets(cs: seq<Element>, tags: seq<string>): seq<Element>
    decreases |tags|
  {
    if |tags| == 0 then []
    else Buckets(cs, tags[..|tags| - 1]) + Filter(cs, IsTag(tags[|tags| - 1]))
  }

  /** The children of other tags in their order, then the groups. */
  function Grouped(cs: seq<Element>, tags: seq<string>): seq<Element> {
    Filter(cs, NotIn(tags)) + Buckets(cs, tags)
  }

  lemma {:induction false} BucketsTags(cs: seq<Element>, tags: seq<string>)
    ensures forall c :: c in Buckets(cs, tags) ==> c.tag in tags
    decreases |tags|
  {
    if |tags| > 0 {
      var n := |tags| - 1;
      BucketsTags(cs, tags[..n]);
      FilterMembers(cs, IsTag(tags[n]));
      assert forall t :: t in tags[..n] ==> t in tags;
    }
  }

  /** Filtering the groups at one of their tags picks out that tag's group. */
  lemma {:induction false} BucketsFilter(cs: seq<Element>, tags: seq<string>, t: string)
    requires Distinct(tags)
    ensures Filter(Buckets(cs, tags), IsTag(t)) == if t in tags then Filter(cs, IsTag(t)) else []
    decreases |tags|
  {
    if |tags| > 0 {
      var n := |tags| - 1;
      var last := Filter(cs, IsTag(tags[n]));
      BucketsFilter(cs, tags[..n], t);
      FilterAppend(Buckets(cs, tags[..n]), last, IsTag(t));
      FilterMembers(cs, IsTag(tags[n]));
      if t == tags[n] {
        FilterKeepsAll(last, IsTag(t));
        assert t !in tags[..n];
      } else {
        FilterDropsAll(last, IsTag(t));
        assert t in tags[..n] <==> t in tags;
      }
    } else {
      assert t !in tags;
    }
  }

  lemma {:induction false} BucketsFilterNotIn(cs: seq<Element>, tags: seq<string>)
    ensures Filter(Buckets(cs, tags), NotIn(tags)) == []
  {
    BucketsTags(cs, tags);
    FilterDropsAll(Buckets(cs, tags), NotIn(tags));
  }

  /** Moving the tags of a distinct list one after another groups the children. */
  lemma {:induction false} MoveTagsToEndGroups(cs: seq<Element>, tags: seq<string>)
    requires Distinct(tags)
    ensures MoveTagsToEnd(cs, tags) == Grouped(cs, tags)
    decreases |tags|
  {
    if |tags| == 0 {
      FilterKeepsAll(cs, NotIn(tags));
    } else {
      var n := |tags| - 1;
      var t := tags[n];
      var front := tags[..n];
      assert Distinct(front);
      assert t !in front;
      MoveTagsToEndGroups(cs, front);
      var a := Filter(cs, NotIn(front));
      var b := Buckets(cs, front);
      assert Filter(a, Not(IsTag(t))) == Filter(cs, NotIn(tags)) by {
        assert forall x :: x in cs ==> (NotIn(tags)(x) <==> NotIn(front)(x) && Not(IsTag(t))(x));
        FilterFilter(cs, NotIn(front), Not(IsTag(t)), NotIn(tags));
      }
      assert Filter(a, IsTag(t)) == Filter(cs, IsTag(t)) by {
        FilterFilter(cs, NotIn(front), IsTag(t), IsTag(t));
      }
      assert Filter(b, Not(IsTag(t))) == b && Filter(b, IsTag(t)) == [] by {
        BucketsTags(cs, front);
        FilterKeepsAll(b, Not(IsTag(t)));
        FilterDropsAll(b, IsTag(t));
      }
      var rest := Filter(cs, NotIn(tags));
      var last := Filter(cs, IsTag(t));
      assert MoveToEnd(a + b, IsTag(t)) == rest + b + last by {
        FilterAppend(a, b, Not(IsTag(t)));
        FilterAppend(a, b, IsTag(t));
        assert Filter(a + b, IsTag(t)) == last + [];
      }
      assert MoveTagsToEnd(cs, tags) == MoveToEnd(a + b, IsTag(t)) by {
        assert tags[..n] == front;
      }
      assert Grouped(cs, tags) == rest + b + last by {
        assert Buckets(cs, tags) == b + last by {
          assert tags[..n] == front;
        }
        AppendAssoc(rest, b, last);
      }
    }
  }

  /** Grouping a grouped sequence changes nothing. */
  lemma {:induction false} GroupedIdempotent(cs: seq<Element>, tags: seq<string>)
    requires Distinct(tags)
    ensures Grouped(Grouped(cs, tags), tags) == Grouped(cs, tags)
  {
    var g := Grouped(cs, tags);
    GroupedFilterNotIn(cs, tags);
    GroupedBuckets(cs, tags, tags);
  }

  lemma {:induction false} GroupedFilterNotIn(cs: seq<Element>, tags: seq<string>)
    ensures Filter(Grouped(cs, tags), NotIn(tags)) == Filter(cs, NotIn(tags))
  {
    var a := Filter(cs, NotIn(tags));
    FilterAppend(a, Buckets(cs, tags), NotIn(tags));
    BucketsFilterNotIn(cs, tags);
    FilterMembers(cs, NotIn(tags));
    FilterKeepsAll(a, NotIn(tags));
  }

  /** Filtering the grouped sequence at one of the tags gives that tag's group. */
  lemma {:induction false} GroupedFilter(cs: seq<Element>, tags: seq<string>, t: string)
    requires Distinct(tags)
    requires t in tags
    ensures Filter(Grouped(cs, tags), IsTag(t)) == Filter(cs, IsTag(t))
  {
    var a := Filter(cs, NotIn(tags));
    FilterAppend(a, Buckets(cs, tags), IsTag(t));
    assert Filter(a, IsTag(t)) == [] by {
      FilterMembers(cs, NotIn(tags));
      FilterDropsAll(a, IsTag(t));
    }
    BucketsFilter(cs, tags, t);
  }

  /** Rebuilding the groups of any prefix of `tags` from the grouped sequence gives the same groups. */
  lemma {:induction false} GroupedBuckets(cs: seq<Element>, tags: seq<string>, front: seq<string>)
    requires Distinct(tags)
    requires forall t :: t in front ==> t in tags
    ensures Buckets(Grouped(cs, tags), front) == Buckets(cs, front)
    decreases |front|
  {
    if |front| > 0 {
      var n := |front| - 1;
      assert forall t :: t in front[..n] ==> t in front;
      GroupedBuckets(cs, tags, front[..n]);
      GroupedFilter(cs, tags, front[n]);
    }
  }

  /** Groups are determined by the filters they are built from. */
  lemma {:induction false} BucketsByFilters(a: seq<Element>, b: seq<Element>, tags: seq<string>)
    requires forall t :: t in tags ==> Filter(a, IsTag(t)) == Filter(b, IsTag(t))
    ensures Buckets(a, tags) == Buckets(b, tags)
    decreases |tags|
  {
    if |tags| > 0 {
      var n := |tags| - 1;
      assert tags[n] in tags;
      assert forall t :: t in tags[..n] ==> t in tags;
      BucketsByFilters(a, b, tags[..n]);
    }
  }

  /** Taking out the children of one grouped tag and putting back the same children of
      that tag, then grouping again, gives the grouping back. */
  lemma {:induction false} RegroupRefilled(ys: seq<Element>, tags: seq<string>, t: string, extra: seq<Element>)
    requires Distinct(tags) && t in tags
    requires Filter(ys, IsTag(t)) == extra
    ensures Grouped(Filter(Grouped(ys, tags), NotTag(t)) + extra, tags) == Grouped(ys, tags)
  {
    var a := Filter(Grouped(ys, tags), NotTag(t)) + extra;
    RefilledNotIn(ys, tags, t, extra);
    forall u | u in tags
      ensures Filter(a, IsTag(u)) == Filter(ys, IsTag(u))
    {
      RefilledAt(ys, tags, t, extra, u);
    }
    BucketsByFilters(a, ys, tags);
  }

  lemma {:induction false} RefilledNotIn(ys: seq<Element>, tags: seq<string>, t: string, extra: seq<Element>)
    requires t in tags
    requires Filter(ys, IsTag(t)) == extra
    ensures Filter(Filter(Grouped(ys, tags), NotTag(t)) + extra, NotIn(tags)) == Filter(ys, NotIn(tags))
  {
    var g := Grouped(ys, tags);
    FilterMembers(ys, IsTag(t));
    FilterFilter(g, NotTag(t), NotIn(tags), NotIn(tags));
    FilterAppend(Filter(g, NotTag(t)), extra, NotIn(tags));
    FilterDropsAll(extra, NotIn(tags));
    GroupedFilterNotIn(ys, tags);
  }

  lemma {:induction false} RefilledAt(ys: seq<Element>, tags: seq<string>, t: string, extra: seq<Element>, u: string)
    requires Distinct(tags) && t in tags && u in tags
    requires Filter(ys, IsTag(t)) == extra
    ensures Filter(Filter(Grouped(ys, tags), NotTag(t)) + extra, IsTag(u)) == Filter(ys, IsTag(u))
  {
    var g := Grouped(ys, tags);
    FilterMembers(ys, IsTag(t));
    FilterAppend(Filter(g, NotTag(t)), extra, IsTag(u));
    GroupedFilter(ys, tags, u);
    if u == t {
      var none := (c: Element) => false;
      FilterFilter(g, NotTag(t), IsTag(u), none);
      FilterDropsAll(g, none);
      FilterKeepsAll(extra, IsTag(u));
    } else {
      FilterFilter(g, NotTag(t), IsTag(u), IsTag(u));
      FilterDropsAll(extra, IsTag(u));
    }
  }

  lemma {:induction false} MoveTagsToEndIdempotent(cs: seq<Element>, tags: seq<string>)
    requires Distinct(tags)
    ensures MoveTagsToEnd(MoveTagsToEnd(cs, tags), tags) == MoveTagsToEnd(cs, tags)
  {
    MoveTagsToEndGroups(cs, tags);
    MoveTagsToEndGroups(Grouped(cs, tags), tags);
    GroupedIdempotent(cs, tags);
  }

  /** Reordering neither loses nor duplicates a child. */
  lemma {:induction false} MoveTagsToEndPermutes(cs: seq<Element>, tags: seq<string>)
    ensures multiset(MoveTagsToEnd(cs, tags)) == multiset(cs)
    decreases |tags|
  {
    if |tags| > 0 {
      MoveTagsToEndPermutes(cs, tags[..|tags| - 1]);
      MoveToEndPermutes(MoveTagsToEnd(cs, tags[..|tags| - 1]), IsTag(tags[|tags| - 1]));
    }
  }

  /** A function that keeps the tag of every child. */
  predicate KeepsTags(cs: seq<Element>, g: Element -> Element) {
    forall x :: x in cs ==> g(x).tag == x.tag
  }

  lemma {:induction false} BucketsMap(cs: seq<Element>, tags: seq<string>, g: Element -> Element)
    requires KeepsTags(cs, g)
    ensures Buckets(Map(cs, g), tags) == Map(Buckets(cs, tags), g)
    decreases |tags|
  {
    if |tags| > 0 {
      var n := |tags| - 1;
      BucketsMap(cs, tags[..n], g);
      FilterMap(cs, g, IsTag(tags[n]));
      MapAppend(Buckets(cs, tags[..n]), Filter(cs, IsTag(tags[n])), g);
    }
  }

  /** Grouping commutes with a tag-keeping map over the children. */
  lemma {:induction false} GroupedMap(cs: seq<Element>, tags: seq<string>, g: Element -> Element)
    requires KeepsTags(cs, g)
    ensures Grouped(Map(cs, g), tags) == Map(Grouped(cs, tags), g)
  {
    FilterMap(cs, g, NotIn(tags));
    BucketsMap(cs, tags, g);
    MapAppend(Filter(cs, NotIn(tags)), Buckets(cs, tags), g);
  }

  lemma {:induction false} MoveTagsToEndMap(cs: seq<Element>, tags: seq<string>, g: Element -> Element)
    requires Distinct(tags) && KeepsTags(cs, g)
    ensures MoveTagsToEnd(Map(cs, g), tags) == Map(MoveTagsToEnd(cs, tags), g)
  {
    MoveTagsToEndGroups(cs, tags);
    MoveTagsToEndGroups(Map(cs, g), tags);
    GroupedMap(cs, tags, g);
  }

  /** An update of the children with tag `t` that keeps their tag. */
  predicate KeepsTag(cs: seq<Element>, t: string, f: Element -> Element) {
    forall x :: x in cs && x.tag == t ==> f(x).tag == t
  }

  /** After changing the first child with a tag, keeping its tag, `find` reads the changed child. */
  lemma {:induction false} FindModifyFirst(e: Element, t: string, f: Element -> Element)
    requires KeepsTag(e.children, t, f)
    ensures var r := e.(children := ModifyFirst(e.children, IsTag(t), f));
      Find(r, t) == if Find(e, t).None? then None else Some(f(Find(e, t).value))
  {
    ModifyFirstAt(e.children, IsTag(t), f);
    if FirstIndex(e.children, IsTag(t)).Some? {
      var j := FirstIndex(e.children, IsTag(t)).value;
      FirstIndexUpdate(e.children, j, f(e.children[j]), IsTag(t));
    }
  }

  lemma {:induction false} BucketsModifyFirst(cs: seq<Element>, tags: seq<string>, t: string, f: Element -> Element)
    requires Distinct(tags) && KeepsTag(cs, t, f)
    ensures Buckets(ModifyFirst(cs, IsTag(t), f), tags) == ModifyFirst(Buckets(cs, tags), IsTag(t), f)
    decreases |tags|
  {
    if |tags| > 0 {
      var n := |tags| - 1;
      var front := tags[..n];
      assert Distinct(front);
      var bf := Buckets(cs, front);
      var last := Filter(cs, IsTag(tags[n]));
      BucketsModifyFirst(cs, front, t, f);
      ModifyFirstAppend(bf, last, IsTag(t), f);
      FilterMembers(cs, IsTag(tags[n]));
      if tags[n] == t {
        FilterModifyFirstIn(cs, IsTag(t), f, IsTag(t));
        assert t !in front;
        BucketsTags(cs, front);
        ModifyFirstAt(bf, IsTag(t), f);
      } else {
        FilterModifyFirstOut(cs, IsTag(t), f, IsTag(tags[n]));
        ModifyFirstAt(last, IsTag(t), f);
        ModifyFirstAt(bf, IsTag(t), f);
      }
    }
  }

  /** Grouping commutes with updating the first child of a tag, when the update keeps that tag. */
  lemma {:induction false} GroupedModifyFirst(cs: seq<Element>, tags: seq<string>, t: string, f: Element -> Element)
    requires Distinct(tags) && KeepsTag(cs, t, f)
    ensures Grouped(ModifyFirst(cs, IsTag(t), f), tags) == ModifyFirst(Grouped(cs, tags), IsTag(t), f)
  {
    var a := Filter(cs, NotIn(tags));
    var b := Buckets(cs, tags);
    BucketsModifyFirst(cs, tags, t, f);
    ModifyFirstAppend(a, b, IsTag(t), f);
    FilterMembers(cs, NotIn(tags));
    if t in tags {
      FilterModifyFirstOut(cs, IsTag(t), f, NotIn(tags));
      ModifyFirstAt(a, IsTag(t), f);
    } else {
      FilterModifyFirstIn(cs, IsTag(t), f, NotIn(tags));
      BucketsTags(cs, tags);
      ModifyFirstAt(b, IsTag(t), f);
      ModifyFirstAt(a, IsTag(t), f);
    }
  }

  lemma {:induction false} MoveTagsToEndModifyFirst(cs: seq<Element>, tags: seq<string>, t: string, f: Element -> Element)
    requires Distinct(tags) && KeepsTag(cs, t, f)
    ensures MoveTagsToEnd(ModifyFirst(cs, IsTag(t), f), tags) == ModifyFirst(MoveTagsToEnd(cs, tags), IsTag(t), f)
  {
    MoveTagsToEndGroups(cs, tags);
    MoveTagsToEndGroups(ModifyFirst(cs, IsTag(t), f), tags);
    GroupedModifyFirst(cs, tags, t, f);
  }

  // ---------------------------------------------------------------------------

  /** `ignore_patterns_in(element)`: the `pattern` attributes of the `ignore`
      children of the first `filter` child; one without the attribute raises KeyError. */
  function IgnorePatternsIn(e: Element): (r: Result<set<string>>)
    ensures r.Ok? ==> forall x :: x in r.value <==>
      exists c :: c in PossiblyMissingFindAll(PossiblyMissingChild(Some(e), "filter"), "ignore") && "pattern" in c.attrs && c.attrs["pattern"] == x
    ensures r.Err? <==> exists c :: c in PossiblyMissingFindAll(PossiblyMissingChild(Some(e), "filter"), "ignore") && "pattern" !in c.attrs
  {
    PatternsOf(PossiblyMissingFindAll(PossiblyMissingChild(Some(e), "filter"), "ignore"))
  }

  function PatternsOf(cs: seq<Element>): (r: Result<set<string>>)
    ensures r.Ok? ==> forall x :: x in r.value <==> exists c :: c in cs && "pattern" in c.attrs && c.attrs["pattern"] == x
    ensures r.Err? <==> exists c :: c in cs && "pattern" !in c.attrs
    decreases |cs|
  {
    if |cs| == 0 then Ok({})
    else if "pattern" !in cs[0].attrs then Err("KeyError: pattern")
    else
      var rest :- PatternsOf(cs[1..]);
      assert forall c :: c in cs <==> c == cs[0] || c in cs[1..];
      Ok({cs[0].attrs["pattern"]} + rest)
  }
}
