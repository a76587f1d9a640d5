/** The `authorization` element of a pipeline group: its `view`, `operate` and
    `admins` sections, each a list of `user` and `role` children keyed by text. */
module Authorization {
  import opened Wrappers
  import opened Seqs
  import opened Xml

  /** The sections of an authorization element. */
  const Sections: seq<string> := ["view", "operate", "admins"]

  /** `view` / `operate` / `admins`: the first section with that tag, possibly absent. */
  function Section(auth: Element, section: string): (r: Option<Element>)
    ensures r.Some? <==> FindAll(auth, section) != []
  {
    FindIsFirstOfFindAll(auth, section);
    Find(auth, section)
  }

  /** `users` (member `user`) or `roles` (member `role`) of a section: the member texts in
      document order. A section that is absent is wrapped as None, whose `findall` raises. */
  function Members(section: Option<Element>, member: string): (r: Result<seq<Option<string>>>)
    ensures r.Ok? <==> section.Some?
    ensures r.Ok? ==> |r.value| == |FindAll(section.value, member)|
  {
    if section.None? then Err("AttributeError: 'NoneType' object has no attribute 'findall'")
    else Ok(Map(FindAll(section.value, member), TextOf))
  }

  /** `add_user(name)` (member `user`) / `add_role(name)` (member `role`): find-or-create
      by text; a new member is parsed from markup, so an empty name gives a member with
      no text. An absent section is wrapped as None, which `Ensurance` rejects with an
      `AssertionError`. */
  function AddMember(section: Option<Element>, member: string, name: string): (r: Result<Element>)
    ensures r.Ok? <==> section.Some?
    ensures r.Ok? ==> r.value.tag == section.value.tag && r.value.attrs == section.value.attrs
  {
    if section.None? then Err("AssertionError: Ensurance(None)")
    else Ok(EnsureChildWithTextAsWritten(section.value, member, name).parent)
  }

  /** Adding a member that is present changes nothing; otherwise it is listed last, read
      back as the parsed text (none for the empty name). */
  lemma {:induction false} AddMemberReads(section: Element, member: string, name: string)
    ensures var before := Members(Some(section), member).value;
      Members(Some(AddMember(Some(section), member, name).value), member)
        == Ok(if Some(name) in before then before else before + [ParsedText(name)])
  {
    var p := HasText(member, name);
    var before := Map(FindAll(section, member), TextOf);
    MemberPresentIffFound(section, member, name);
    var r := AddMember(Some(section), member, name).value;
    if FirstIndex(section.children, p).None? {
      assert r == Append(section, Parsed(member, name));
      assert Map(FindAll(r, member), TextOf) == before + [ParsedText(name)] by {
        FindAllAppend(section, Parsed(member, name), member);
        MapAppend(FindAll(section, member), [Parsed(member, name)], TextOf);
      }
    } else {
      assert r == section;
    }
  }

  /** A name is among the member texts exactly when some child is a member with that text. */
  lemma {:induction false} MemberPresentIffFound(section: Element, member: string, name: string)
    ensures (Some(name) in Map(FindAll(section, member), TextOf)) <==> FirstIndex(section.children, HasText(member, name)).Some?
  {
    var p := HasText(member, name);
    var cs := section.children;
    var before := Map(FindAll(section, member), TextOf);
    FilterMembers(cs, IsTag(member));
    if Some(name) in before {
      var i :| 0 <= i < |before| && before[i] == Some(name);
      var c := FindAll(section, member)[i];
      assert c in cs && p(c);
      var k :| 0 <= k < |cs| && cs[k] == c;
      assert FirstIndex(cs, p).Some?;
    }
    if FirstIndex(cs, p).Some? {
      var c := cs[FirstIndex(cs, p).value];
      assert c in FindAll(section, member);
      var i :| 0 <= i < |FindAll(section, member)| && FindAll(section, member)[i] == c;
      assert before[i] == Some(name);
    }
  }

  /** Adding the same user or role twice is adding it once, except for the empty name when
      no member already holds the empty text: that member is added with no text, is never
      found again, and the second call adds another. */
  lemma {:induction false} AddMemberIdempotent(section: Element, member: string, name: string)
    ensures var once := AddMember(Some(section), member, name).value;
      (AddMember(Some(once), member, name).value == once) <==> (name != "" || Some(name) in Members(Some(section), member).value)
  {
    var before := Members(Some(section), member).value;
    var once := AddMember(Some(section), member, name).value;
    var twice := AddMember(Some(once), member, name).value;
    AddMemberReads(section, member, name);
    AddMemberReads(once, member, name);
    if name != "" {
      EnsureChildWithTextAgrees(section, member, name);
      EnsureChildWithTextAgrees(once, member, name);
      EnsureChildWithTextIdempotent(section, member, name);
    } else if Some(name) !in before {
      assert Members(Some(once), member).value == before + [None];
      assert Some(name) !in before + [None];
      assert |Members(Some(twice), member).value| == |before| + 2;
      assert twice != once;
    } else {
      MemberPresentIffFound(section, member, name);
    }
  }

  /** Members keep the order they were first added in. */
  lemma {:induction false} AddMembersInOrder(section: Element, member: string, a: string, b: string)
    requires Members(Some(section), member) == Ok([])
    requires a != b
    ensures Members(Some(AddMember(Some(AddMember(Some(section), member, a).value), member, b).value), member) == Ok([ParsedText(a), ParsedText(b)])
  {
    var s1 := AddMember(Some(section), member, a).value;
    assert Members(Some(s1), member) == Ok([ParsedText(a)]) by {
      AddMemberReads(section, member, a);
      assert [] + [ParsedText(a)] == [ParsedText(a)];
    }
    assert Members(Some(AddMember(Some(s1), member, b).value), member) == Ok([ParsedText(a)] + [ParsedText(b)]) by {
      AddMemberReads(s1, member, b);
      assert Some(b) !in [ParsedText(a)];
    }
    assert [ParsedText(a)] + [ParsedText(b)] == [ParsedText(a), ParsedText(b)];
  }

  /** `ensure_view()` / `ensure_operate()` / `ensure_admins()`: find-or-create the section;
      gives the new authorization element and the section. */
  function EnsureSection(auth: Element, section: string): (r: (Element, Element))
    ensures r.1.tag == section && Section(r.0, section) == Some(r.1)
    ensures r.0.tag == auth.tag && r.0.attrs == auth.attrs
  {
    EnsureFound(auth, section)
  }

  /** A section is never duplicated: there is one afterwards if there was none, and as many
      as before otherwise; a second call changes nothing. */
  lemma {:induction false} EnsureSectionNoDuplicate(auth: Element, section: string)
    ensures var n := |FindAll(auth, section)|;
      |FindAll(EnsureSection(auth, section).0, section)| == if n == 0 then 1 else n
    ensures EnsureSection(EnsureSection(auth, section).0, section) == EnsureSection(auth, section)
  {
    FindIsFirstOfFindAll(auth, section);
    if Find(auth, section).None? {
      FindAllAppend(auth, Empty(section), section);
    }
    EnsureChildIdempotent(auth, section);
  }

  /** A section changed through the handle `ensure_*` gave. */
  function PutSection(auth: Element, section: string, s: Element): (r: Element)
    requires s.tag == section
    ensures Section(r, section) == Some(s)
    ensures forall t :: t != section ==> FindAll(r, t) == FindAll(auth, t)
  {
    EnsureChildPutFinds(auth, section, s);
    forall t | t != section
      ensures FindAll(Put(EnsureChild(auth, section), s), t) == FindAll(auth, t)
    {
      EnsureChildPutKeepsOthers(auth, section, s, t);
    }
    Put(EnsureChild(auth, section), s)
  }

  /** `make_empty()`: every child goes, so no section can be read afterwards. */
  function MakeEmpty(auth: Element): (r: Element)
    ensures r.tag == auth.tag && r.attrs == auth.attrs
    ensures forall t :: Section(r, t).None?
    ensures forall t :: Members(Section(r, t), "user").Err?
  {
    RemoveAllChildren(Some(auth), None).value
  }
}
