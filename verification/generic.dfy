/** The two mixins shared by agents, pipelines, stages and jobs: a set of
    resources, and environment variables split three ways.

    A `variable` child of `environmentvariables` is plain when its `secure`
    attribute is not `"true"`, encrypted when it is secure and has an
    `encryptedValue` child, and unencrypted-secure when it is secure and has
    none. A variable that is not secure but has an `encryptedValue` child is in
    none of the three.
 */
module Generic {
  import opened Wrappers
  import opened Strings
  import opened Seqs
  import opened Xml

  // ---------------------------------------------------------------------------
  // ResourceMixin

  function Texts(rs: seq<Element>): set<Option<string>> {
    set c | c in rs :: c.text
  }

  lemma {:induction false} TextsAppend(rs: seq<Element>, c: Element)
    ensures Texts(rs + [c]) == Texts(rs) + {c.text}
  {
    assert forall x :: x in rs + [c] <==> x in rs || x == c;
  }

  /** `resources`: the texts of the `resource` children of the first `resources` child. */
  function Resources(e: Element): (r: set<Option<string>>)
    ensures Find(e, "resources").None? ==> r == {}
  {
    Texts(PossiblyMissingFindAll(PossiblyMissingChild(Some(e), "resources"), "resource"))
  }

  /** `ensure_resource(name)` as written: the new element is parsed from
      `<resource>name</resource>`, so an empty name gives an element without text. */
  function EnsureResourceAsWritten(e: Element, resource: string): (r: Element)
    ensures Some(resource) in Resources(e) ==> r == e
    ensures Some(resource) !in Resources(e) ==> Resources(r) == Resources(e) + {ParsedText(resource)}
  {
    if Some(resource) in Resources(e) then e
    else
      var c := Parsed("resource", resource);
      AppendResourceReads(e, c);
      AddResource(e, c)
  }

  /** `ensure_child('resources').append(c)` */
  function AddResource(e: Element, c: Element): Element {
    var h := EnsureChild(e, "resources");
    Put(h, Append(Child(h), c))
  }

  /** Appending a `resource` child adds its text to the resources. */
  lemma {:induction false} AppendResourceReads(e: Element, c: Element)
    requires c.tag == "resource"
    ensures Resources(AddResource(e, c)) == Resources(e) + {c.text}
  {
    var h := EnsureChild(e, "resources");
    EnsureChildPutFinds(e, "resources", Append(Child(h), c));
    FindAllAppend(Child(h), c, "resource");
    TextsAppend(FindAll(Child(h), "resource"), c);
  }

  /** Ensuring the empty resource twice adds it twice, since what was added does not read back as the empty name. */
  lemma {:induction false} EnsureResourceAsWrittenRepeatsEmpty()
    ensures var once := EnsureResourceAsWritten(Empty("agent"), "");
      && Resources(once) == {None}
      && EnsureResourceAsWritten(once, "") != once
  {
    var once := EnsureResourceAsWritten(Empty("agent"), "");
    assert Resources(once) == {None};
  }

  /** `ensure_resource(name)`: adds a `resource` holding the name, creating the
      `resources` element if needed, unless the name is already there. */
  function EnsureResource(e: Element, resource: string): (r: Element)
    ensures Resources(r) == Resources(e) + {Some(resource)}
    ensures Some(resource) in Resources(e) ==> r == e
    ensures Some(resource) !in Resources(e) ==> |Resources(r)| == |Resources(e)| + 1
  {
    if Some(resource) in Resources(e) then e
    else
      var c := TextElement("resource", resource);
      AppendResourceReads(e, c);
      AddResource(e, c)
  }

  /** For every name but the empty one, the two versions agree. */
  lemma EnsureResourceAgrees(e: Element, resource: string)
    requires resource != ""
    ensures EnsureResourceAsWritten(e, resource) == EnsureResource(e, resource)
  {
  }

  lemma EnsureResourceIdempotent(e: Element, resource: string)
    ensures EnsureResource(EnsureResource(e, resource), resource) == EnsureResource(e, resource)
  {
  }

  // ---------------------------------------------------------------------------
  // EnvironmentVariableMixin: reading

  predicate IsSecure(v: Element) {
    "secure" in v.attrs && v.attrs["secure"] == "true"
  }

  predicate IsEncrypted(v: Element) {
    Find(v, "encryptedValue").Some?
  }

  /** `__value_element_name` */
  function ValueTag(encrypted: bool): string {
    if encrypted then "encryptedValue" else "value"
  }

  /** The three maps: `environment_variables`, `encrypted_environment_variables`
      and `unencrypted_secure_environment_variables`. */
  datatype Partition = Plain | EncryptedSecure | UnencryptedSecure

  predicate Secure(p: Partition) {
    !p.Plain?
  }

  predicate Encrypted(p: Partition) {
    p.EncryptedSecure?
  }

  predicate InPartition(v: Element, p: Partition) {
    IsSecure(v) == Secure(p) && IsEncrypted(v) == Encrypted(p)
  }

  /** A variable is in at most one partition; a plain-looking one with an encrypted value is in none. */
  lemma PartitionsDisjoint(v: Element, p: Partition, q: Partition)
    ensures InPartition(v, p) && InPartition(v, q) ==> p == q
    ensures !IsSecure(v) && IsEncrypted(v) ==> !InPartition(v, p)
  {
  }

  function Name(v: Element): string {
    if "name" in v.attrs then v.attrs["name"] else ""
  }

  /** The text of the value child a partition reads. */
  function ValueText(v: Element, p: Partition): Option<string> {
    PossiblyMissingText(Find(v, ValueTag(Encrypted(p))))
  }

  /** Reading the variable raises neither KeyError nor AttributeError. */
  predicate Readable(v: Element, p: Partition) {
    "name" in v.attrs && Find(v, ValueTag(Encrypted(p))).Some?
  }

  /** No variable after `i` in the same partition has the same name, so `i` is the one a dict keeps. */
  predicate LastNamed(vs: seq<Element>, i: int, p: Partition)
    requires 0 <= i < |vs|
  {
    forall j :: i < j < |vs| && InPartition(vs[j], p) ==> Name(vs[j]) != Name(vs[i])
  }

  /** The `variable` children of the first `environmentvariables` child. */
  function Variables(e: Element): seq<Element> {
    PossiblyMissingFindAll(PossiblyMissingChild(Some(e), "environmentvariables"), "variable")
  }

  /** `__environment_variables(secure, encrypted)`: a dict from the name of every
      variable in the partition to the text of its value child, later variables
      overwriting earlier ones of the same name. A variable in the partition without
      a name or without its value child raises. */
  function ReadPartition(vs: seq<Element>, p: Partition): (r: Result<map<string, Option<string>>>)
    ensures r.Ok? <==> forall i :: 0 <= i < |vs| && InPartition(vs[i], p) ==> Readable(vs[i], p)
    decreases |vs|
  {
    if |vs| == 0 then Ok(map[])
    else
      var front := vs[..|vs| - 1];
      assert forall i :: 0 <= i < |front| ==> front[i] == vs[i];
      var m :- ReadPartition(front, p);
      var v := vs[|vs| - 1];
      if !InPartition(v, p) then Ok(m)
      else
        var name :- Required(v.attrs, "name");
        match Find(v, ValueTag(Encrypted(p)))
        case None => Err("AttributeError: 'NoneType' object has no attribute 'text'")
        case Some(c) => Ok(m[name := c.text])
  }

  /** The dict has a key for exactly the names of the variables in the partition. */
  lemma {:induction false} ReadPartitionKeys(vs: seq<Element>, p: Partition)
    requires ReadPartition(vs, p).Ok?
    ensures forall k :: k in ReadPartition(vs, p).value <==> exists v :: v in vs && InPartition(v, p) && Name(v) == k
    decreases |vs|
  {
    if |vs| > 0 {
      var front := vs[..|vs| - 1];
      ReadPartitionKeys(front, p);
      assert vs == front + [vs[|vs| - 1]];
    }
  }

  /** Each name maps to the value of the last variable of the partition with that name. */
  lemma {:induction false} ReadPartitionValues(vs: seq<Element>, p: Partition)
    requires ReadPartition(vs, p).Ok?
    ensures forall i :: 0 <= i < |vs| && InPartition(vs[i], p) && LastNamed(vs, i, p) ==>
      Name(vs[i]) in ReadPartition(vs, p).value && ReadPartition(vs, p).value[Name(vs[i])] == ValueText(vs[i], p)
    decreases |vs|
  {
    if |vs| > 0 {
      var front := vs[..|vs| - 1];
      var last := |vs| - 1;
      ReadPartitionValues(front, p);
      var m := ReadPartition(front, p).value;
      var r := ReadPartition(vs, p).value;
      forall i | 0 <= i < |vs| && InPartition(vs[i], p) && LastNamed(vs, i, p)
        ensures Name(vs[i]) in r && r[Name(vs[i])] == ValueText(vs[i], p)
      {
        if i < last {
          assert front[i] == vs[i];
          assert LastNamed(front, i, p) by {
            forall j | i < j < |front| && InPartition(front[j], p)
              ensures Name(front[j]) != Name(front[i])
            {
              assert front[j] == vs[j];
            }
          }
        }
      }
    }
  }

  /** Every variable has a name and the value child its partition reads, and no two share a name:
      what the ensure operations keep. */
  predicate WellFormedVariable(v: Element) {
    v.tag == "variable" && "name" in v.attrs && (IsEncrypted(v) || Find(v, "value").Some?)
  }

  predicate WellFormed(vs: seq<Element>) {
    (forall i :: 0 <= i < |vs| ==> WellFormedVariable(vs[i])) && DistinctKeys(vs, Name)
  }

  /** On well-formed variables every partition reads without error, and each
      variable of the partition contributes its own name and value. */
  lemma {:induction false} ReadWellFormed(vs: seq<Element>, p: Partition)
    requires WellFormed(vs)
    ensures ReadPartition(vs, p).Ok?
    ensures forall k :: k in ReadPartition(vs, p).value <==> exists v :: v in vs && InPartition(v, p) && Name(v) == k
    ensures forall v :: v in vs && InPartition(v, p) ==>
      Name(v) in ReadPartition(vs, p).value && ReadPartition(vs, p).value[Name(v)] == ValueText(v, p)
  {
    ReadPartitionKeys(vs, p);
    ReadPartitionValues(vs, p);
    forall v | v in vs && InPartition(v, p)
      ensures Name(v) in ReadPartition(vs, p).value && ReadPartition(vs, p).value[Name(v)] == ValueText(v, p)
    {
      var i :| 0 <= i < |vs| && vs[i] == v;
      assert LastNamed(vs, i, p);
    }
  }

  /** Two well-formed variables with the same name are the same variable. */
  lemma {:induction false} NamesIdentify(vs: seq<Element>, v: Element, w: Element)
    requires WellFormed(vs) && v in vs && w in vs && Name(v) == Name(w)
    ensures v == w
  {
    var i :| 0 <= i < |vs| && vs[i] == v;
    var j :| 0 <= j < |vs| && vs[j] == w;
    assert !(i < j) && !(j < i);
  }

  /** On well-formed variables the three maps have no name in common. */
  lemma {:induction false} PartitionMapsDisjoint(vs: seq<Element>, p: Partition, q: Partition)
    requires WellFormed(vs) && p != q
    ensures ReadPartition(vs, p).Ok? && ReadPartition(vs, q).Ok?
    ensures ReadPartition(vs, p).value.Keys !! ReadPartition(vs, q).value.Keys
  {
    ReadWellFormed(vs, p);
    ReadWellFormed(vs, q);
    forall k | k in ReadPartition(vs, p).value
      ensures k !in ReadPartition(vs, q).value
    {
      var v :| v in vs && InPartition(v, p) && Name(v) == k;
      if k in ReadPartition(vs, q).value {
        var w :| w in vs && InPartition(w, q) && Name(w) == k;
        NamesIdentify(vs, v, w);
      }
    }
  }

  // ---------------------------------------------------------------------------
  // EnvironmentVariableMixin: writing

  /** The body of the loop in `__ensure_environment_variables`, applied to the
      variable found or created by name, as written: set or remove `secure`, then
      set the text of the first value child of the partition's kind. */
  function UpdateVariableAsWritten(v: Element, value: Option<string>, p: Partition): (r: Element)
    ensures r.tag == v.tag && Name(r) == Name(v) && ("name" in r.attrs <==> "name" in v.attrs)
    ensures IsSecure(r) == Secure(p)
    ensures Find(r, ValueTag(Encrypted(p))).Some? && ValueText(r, p) == value
  {
    var flagged := if Secure(p) then SetAttr(v, "secure", "true") else RemoveAttribute(Some(v), "secure").value;
    var h := EnsureChild(flagged, ValueTag(Encrypted(p)));
    var c := SetText(Child(h), value);
    EnsureChildPutFinds(flagged, ValueTag(Encrypted(p)), c);
    Put(h, c)
  }

  /** The same update that also drops an `encryptedValue` child when a value that
      is not encrypted is written, so the variable lands in the partition asked for. */
  function UpdateVariable(v: Element, value: Option<string>, p: Partition): (r: Element)
    ensures r.tag == v.tag && Name(r) == Name(v) && ("name" in r.attrs <==> "name" in v.attrs)
    ensures InPartition(r, p)
    ensures Find(r, ValueTag(Encrypted(p))).Some? && ValueText(r, p) == value
  {
    if Encrypted(p) then UpdateVariableAsWritten(v, value, p)
    else
      var cleared := RemoveAllChildren(Some(v), Some("encryptedValue")).value;
      var r := UpdateVariableAsWritten(cleared, value, p);
      assert FindAll(r, "encryptedValue") == [] by {
        var flagged := if Secure(p) then SetAttr(cleared, "secure", "true") else RemoveAttribute(Some(cleared), "secure").value;
        var h := EnsureChild(flagged, "value");
        EnsureChildPutKeepsOthers(flagged, "value", SetText(Child(h), value), "encryptedValue");
        FilterDropsAll(flagged.children, IsTag("encryptedValue"));
      }
      FindIsFirstOfFindAll(r, "encryptedValue");
      r
  }

  /** The element of an encrypted secure variable `n` whose encrypted value is `x`. */
  function EncryptedVariable(n: string, x: string): Element {
    Element("variable", map["name" := n, "secure" := "true"], None, [TextElement("encryptedValue", x)])
  }

  /** Writing a plain value over an encrypted variable as written leaves its
      `encryptedValue` child, so the variable drops out of every partition. */
  lemma {:induction false} UpdateVariableAsWrittenLosesEncrypted(n: string, x: string, value: Option<string>)
    ensures var v := EncryptedVariable(n, x);
      var r := UpdateVariableAsWritten(v, value, Plain);
      && InPartition(v, EncryptedSecure)
      && (forall p :: !InPartition(r, p))
      && InPartition(UpdateVariable(v, value, Plain), Plain)
  {
    var v := EncryptedVariable(n, x);
    var r := UpdateVariableAsWritten(v, value, Plain);
    var flagged := RemoveAttribute(Some(v), "secure").value;
    assert flagged.children == v.children;
    assert r.children[0] == TextElement("encryptedValue", x);
    assert IsEncrypted(r);
  }

  /** One name of `__ensure_environment_variables`: the variable is found or created
      by its `name` attribute and updated, in place. */
  function EnsureVariable(ev: Element, name: string, value: Option<string>, p: Partition, asWritten: bool): (r: Result<Element>)
    ensures r.Ok? <==> AllCarry(ev, "variable", "name")
    ensures r.Ok? ==> r.value.tag == ev.tag && AllCarry(r.value, "variable", "name")
  {
    var h :- EnsureChildWithAttribute(ev, "variable", "name", name);
    var v := Child(h);
    var u := if asWritten then UpdateVariableAsWritten(v, value, p) else UpdateVariable(v, value, p);
    EnsureChildWithAttributeCarries(ev, "variable", "name", name);
    PutCarries(h, u, "variable", "name");
    Ok(Put(h, u))
  }

  lemma {:induction false} WellFormedCarries(ev: Element)
    requires WellFormed(FindAll(ev, "variable"))
    ensures AllCarry(ev, "variable", "name")
  {
    FilterMembers(ev.children, IsTag("variable"));
    forall i | 0 <= i < |ev.children| && ev.children[i].tag == "variable"
      ensures "name" in ev.children[i].attrs
    {
      assert ev.children[i] in FindAll(ev, "variable");
    }
  }

  /** What one step of the loop does to the variables: they stay well formed, exactly
      one has the name, and it is in the partition with the value; every variable with
      another name is kept and none is added. */
  predicate Stepped(vs: seq<Element>, vs': seq<Element>, name: string, value: Option<string>, p: Partition) {
    && WellFormed(vs')
    && (exists c :: c in vs' && Name(c) == name)
    && (forall c :: c in vs' && Name(c) == name ==> InPartition(c, p) && ValueText(c, p) == value)
    && (forall v :: v in vs && Name(v) != name ==> v in vs')
    && (forall v :: v in vs' && Name(v) != name ==> v in vs)
  }

  lemma {:induction false} ReplaceKeepsWellFormed(vs: seq<Element>, j: nat, c: Element)
    requires WellFormed(vs) && j < |vs| && Name(vs[j]) == Name(c) && WellFormedVariable(c)
    ensures WellFormed(vs[j := c])
  {
    var vs' := vs[j := c];
    assert forall x :: 0 <= x < |vs| ==> Name(vs'[x]) == Name(vs[x]);
    assert forall x :: 0 <= x < |vs| ==> vs'[x] == c || vs'[x] == vs[x];
  }

  lemma {:induction false} ReplaceKeepsOthers(vs: seq<Element>, j: nat, c: Element)
    requires WellFormed(vs) && j < |vs| && Name(vs[j]) == Name(c)
    ensures forall v :: v in vs && Name(v) != Name(c) ==> v in vs[j := c]
    ensures forall v :: v in vs[j := c] ==> v == c || (v in vs && Name(v) != Name(c))
  {
    var vs' := vs[j := c];
    forall v | v in vs && Name(v) != Name(c)
      ensures v in vs'
    {
      var m :| 0 <= m < |vs| && vs[m] == v;
      assert vs'[m] == v;
    }
    forall v | v in vs'
      ensures v == c || (v in vs && Name(v) != Name(c))
    {
      var m :| 0 <= m < |vs'| && vs'[m] == v;
      if m != j {
        assert vs[m] == v;
        assert Name(vs[m]) != Name(vs[j]) by {
          assert m < j || j < m;
        }
      }
    }
  }

  lemma {:induction false} ReplaceStep(vs: seq<Element>, j: nat, c: Element, name: string, value: Option<string>, p: Partition)
    requires WellFormed(vs) && j < |vs| && Name(vs[j]) == name
    requires WellFormedVariable(c) && Name(c) == name && InPartition(c, p) && ValueText(c, p) == value
    ensures Stepped(vs, vs[j := c], name, value, p)
  {
    ReplaceKeepsWellFormed(vs, j, c);
    ReplaceKeepsOthers(vs, j, c);
    assert c == vs[j := c][j];
  }

  lemma {:induction false} AppendStep(vs: seq<Element>, c: Element, name: string, value: Option<string>, p: Partition)
    requires WellFormed(vs) && forall v :: v in vs ==> Name(v) != name
    requires WellFormedVariable(c) && Name(c) == name && InPartition(c, p) && ValueText(c, p) == value
    ensures Stepped(vs, vs + [c], name, value, p)
  {
    assert forall x :: 0 <= x < |vs| ==> vs[x] in vs;
    assert c == (vs + [c])[|vs|];
  }

  lemma {:induction false} StepAtFound(ev: Element, i: nat, c: Element, name: string, value: Option<string>, p: Partition)
    requires WellFormed(FindAll(ev, "variable"))
    requires i < |ev.children| && ev.children[i].tag == "variable" && Name(ev.children[i]) == name
    requires WellFormedVariable(c) && Name(c) == name && InPartition(c, p) && ValueText(c, p) == value
    ensures Stepped(FindAll(ev, "variable"), FindAll(ev.(children := ev.children[i := c]), "variable"), name, value, p)
  {
    var isVar := IsTag("variable");
    FilterUpdateAt(ev.children, i, c, isVar);
    ReplaceStep(FindAll(ev, "variable"), |Filter(ev.children[..i], isVar)|, c, name, value, p);
  }

  lemma {:induction false} StepAtCreated(ev: Element, c: Element, name: string, value: Option<string>, p: Partition)
    requires WellFormed(FindAll(ev, "variable"))
    requires forall m :: 0 <= m < |ev.children| ==> !HasAttrValue("variable", "name", name)(ev.children[m])
    requires WellFormedVariable(c) && Name(c) == name && InPartition(c, p) && ValueText(c, p) == value
    ensures Stepped(FindAll(ev, "variable"), FindAll(ev.(children := ev.children + [c]), "variable"), name, value, p)
  {
    var isVar := IsTag("variable");
    var vs := FindAll(ev, "variable");
    assert FindAll(ev.(children := ev.children + [c]), "variable") == vs + [c] by {
      FilterAppend(ev.children, [c], isVar);
    }
    assert forall v :: v in vs ==> Name(v) != name by {
      FilterMembers(ev.children, isVar);
      forall v | v in vs
        ensures Name(v) != name
      {
        var m :| 0 <= m < |ev.children| && ev.children[m] == v;
        assert !HasAttrValue("variable", "name", name)(ev.children[m]);
      }
    }
    AppendStep(vs, c, name, value, p);
  }

  /** One step of the corrected loop does what `Stepped` says. */
  lemma {:induction false} EnsureVariableStep(ev: Element, name: string, value: Option<string>, p: Partition)
    requires WellFormed(FindAll(ev, "variable"))
    ensures EnsureVariable(ev, name, value, p, false).Ok?
    ensures Stepped(FindAll(ev, "variable"), FindAll(EnsureVariable(ev, name, value, p, false).value, "variable"), name, value, p)
  {
    WellFormedCarries(ev);
    var h := EnsureChildWithAttribute(ev, "variable", "name", name).value;
    var c := UpdateVariable(Child(h), value, p);
    assert WellFormedVariable(c);
    if FirstIndex(ev.children, HasAttrValue("variable", "name", name)).Some? {
      assert Put(h, c) == ev.(children := ev.children[h.index := c]);
      StepAtFound(ev, h.index, c, name, value, p);
    } else {
      assert Put(h, c) == ev.(children := ev.children + [c]) by {
        UpdateLast(ev.children, Element("variable", map["name" := name], None, []), c);
      }
      StepAtCreated(ev, c, name, value, p);
    }
  }

  /** The loop of `__ensure_environment_variables` over the names, in the order given. */
  function EnsureEach(ev: Element, names: seq<string>, vars: map<string, Option<string>>, p: Partition, asWritten: bool): (r: Result<Element>)
    requires forall k :: k in names ==> k in vars
    ensures r.Ok? <==> |names| == 0 || AllCarry(ev, "variable", "name")
    ensures r.Ok? ==> r.value.tag == ev.tag
    ensures r.Ok? && AllCarry(ev, "variable", "name") ==> AllCarry(r.value, "variable", "name")
    decreases |names|
  {
    if |names| == 0 then Ok(ev)
    else
      var next :- EnsureVariable(ev, names[0], vars[names[0]], p, asWritten);
      EnsureEach(next, names[1..], vars, p, asWritten)
  }

  /** What the whole loop does: `Stepped` for every name at once. */
  predicate SteppedAll(vs: seq<Element>, vs': seq<Element>, names: seq<string>, vars: map<string, Option<string>>, p: Partition) {
    && WellFormed(vs')
    && (forall k :: k in names ==> exists c :: c in vs' && Name(c) == k)
    && (forall c :: c in vs' && Name(c) in names ==> Name(c) in vars && InPartition(c, p) && ValueText(c, p) == vars[Name(c)])
    && (forall v :: v in vs && Name(v) !in names ==> v in vs')
    && (forall v :: v in vs' && Name(v) !in names ==> v in vs)
  }

  lemma {:induction false} EnsureEachFacts(ev: Element, names: seq<string>, vars: map<string, Option<string>>, p: Partition)
    requires forall k :: k in names ==> k in vars
    requires Distinct(names)
    requires WellFormed(FindAll(ev, "variable"))
    ensures EnsureEach(ev, names, vars, p, false).Ok?
    ensures SteppedAll(FindAll(ev, "variable"), FindAll(EnsureEach(ev, names, vars, p, false).value, "variable"), names, vars, p)
    decreases |names|
  {
    if |names| > 0 {
      var k := names[0];
      var rest := names[1..];
      var vs := FindAll(ev, "variable");
      assert EnsureVariable(ev, k, vars[k], p, false).Ok?
          && Stepped(vs, FindAll(EnsureVariable(ev, k, vars[k], p, false).value, "variable"), k, vars[k], p) by {
        EnsureVariableStep(ev, k, vars[k], p);
      }
      var next := EnsureVariable(ev, k, vars[k], p, false).value;
      var vs1 := FindAll(next, "variable");
      assert Distinct(rest) && k !in rest && forall x :: x in rest ==> x in vars by {
        DistinctTail(names);
      }
      assert WellFormed(vs1) && EnsureEach(next, rest, vars, p, false).Ok?
          && SteppedAll(vs1, FindAll(EnsureEach(next, rest, vars, p, false).value, "variable"), rest, vars, p) by {
        EnsureEachFacts(next, rest, vars, p);
      }
      var vs' := FindAll(EnsureEach(next, rest, vars, p, false).value, "variable");
      assert SteppedAll(vs, vs', [k] + rest, vars, p) by {
        ComposeSteps(vs, vs1, vs', k, rest, vars, p);
      }
      HeadTail(names);
      EnsureEachUnfold(ev, names, vars, p);
    }
  }

  lemma EnsureEachUnfold(ev: Element, names: seq<string>, vars: map<string, Option<string>>, p: Partition)
    requires forall k :: k in names ==> k in vars
    requires |names| > 0 && AllCarry(ev, "variable", "name")
    ensures EnsureEach(ev, names, vars, p, false)
         == EnsureEach(EnsureVariable(ev, names[0], vars[names[0]], p, false).value, names[1..], vars, p, false)
  {
  }

  /** One step followed by the rest of the loop is the loop over all the names. */
  lemma {:induction false} ComposeSteps(vs: seq<Element>, vs1: seq<Element>, vs': seq<Element>, k: string, rest: seq<string>,
                     vars: map<string, Option<string>>, p: Partition)
    requires k in vars && k !in rest
    requires Stepped(vs, vs1, k, vars[k], p)
    requires SteppedAll(vs1, vs', rest, vars, p)
    ensures SteppedAll(vs, vs', [k] + rest, vars, p)
  {
    var names := [k] + rest;
    assert forall x :: x in names <==> x == k || x in rest;
    assert exists c :: c in vs' && Name(c) == k by {
      var c :| c in vs1 && Name(c) == k;
      assert c in vs';
    }
  }

  /** `__sort_by_name_attribute`: the variables are taken out and put back last, sorted by name.
      Reading the name of a variable without one raises KeyError. */
  function SortVariables(ev: Element): (r: Result<Element>)
    ensures r.Ok? <==> forall i :: 0 <= i < |FindAll(ev, "variable")| ==> "name" in FindAll(ev, "variable")[i].attrs
    ensures r.Ok? ==> r.value.tag == ev.tag && FindAll(r.value, "variable") == SortBy(FindAll(ev, "variable"), Name)
  {
    var vs := FindAll(ev, "variable");
    if exists i :: 0 <= i < |vs| && "name" !in vs[i].attrs then Err("KeyError: 'name'")
    else
      var kept := RemoveAllChildren(Some(ev), Some("variable")).value;
      PutBackSorted(ev);
      Ok(kept.(children := kept.children + SortBy(vs, Name)))
  }

  /** Taking the variables out and appending them sorted leaves exactly the sorted ones. */
  lemma {:induction false} PutBackSorted(ev: Element)
    ensures var kept := RemoveAllChildren(Some(ev), Some("variable")).value;
      var sorted := SortBy(FindAll(ev, "variable"), Name);
      kept.tag == ev.tag && FindAll(kept.(children := kept.children + sorted), "variable") == sorted
  {
    var vs := FindAll(ev, "variable");
    var kept := RemoveAllChildren(Some(ev), Some("variable")).value;
    var sorted := SortBy(vs, Name);
    assert Filter(sorted, IsTag("variable")) == sorted by {
      SortByFacts(vs, Name);
      assert forall x :: x in sorted ==> x in multiset(vs);
      FilterMembers(ev.children, IsTag("variable"));
      FilterKeepsAll(sorted, IsTag("variable"));
    }
    assert Filter(kept.children, IsTag("variable")) == [] by {
      assert forall x :: x in kept.children ==> x.tag != "variable";
      FilterDropsAll(kept.children, IsTag("variable"));
    }
    FilterAppend(kept.children, sorted, IsTag("variable"));
  }

  /** `__ensure_environment_variables(vars, secure, encrypted)`: the names in sorted
      order, then the variables sorted by name. */
  function EnsureVars(e: Element, vars: map<string, Option<string>>, p: Partition, asWritten: bool): (r: Result<Element>)
    ensures r.Ok? <==> AllCarry(Child(EnsureChild(e, "environmentvariables")), "variable", "name")
  {
    var h := EnsureChild(e, "environmentvariables");
    var ev :- EnsureEach(Child(h), SortedList(vars.Keys), vars, p, asWritten);
    CarryByFindAll(ev);
    var sorted :- SortVariables(ev);
    Ok(Put(h, sorted))
  }

  /** `AllCarry` is the condition `__sort_by_name_attribute` reads every name under. */
  lemma {:induction false} CarryByFindAll(ev: Element)
    ensures AllCarry(ev, "variable", "name") <==>
      forall i :: 0 <= i < |FindAll(ev, "variable")| ==> "name" in FindAll(ev, "variable")[i].attrs
  {
    var vs := FindAll(ev, "variable");
    FilterMembers(ev.children, IsTag("variable"));
    if !AllCarry(ev, "variable", "name") {
      var i :| 0 <= i < |ev.children| && ev.children[i].tag == "variable" && "name" !in ev.children[i].attrs;
      assert ev.children[i] in vs;
    }
  }

  /** `ensure_environment_variables` and its two secure variants, as written. */
  function EnsureEnvironmentVariablesAsWritten(e: Element, vars: map<string, Option<string>>, p: Partition): (r: Result<Element>)
    ensures r.Ok? <==> VariablesNamed(e)
    ensures r.Ok? ==> SortedBy(Variables(r.value), Name) && VariablesNamed(r.value)
  {
    var r := EnsureVars(e, vars, p, true);
    EnsureVarsSorted(e, vars, p, true);
    EnsureVarsNamed(e, vars, p, true);
    r
  }

  /** `ensure_environment_variables` and its two secure variants, with the update
      that moves a variable out of the encrypted partition when needed. */
  function EnsureEnvironmentVariables(e: Element, vars: map<string, Option<string>>, p: Partition): (r: Result<Element>)
    ensures r.Ok? <==> VariablesNamed(e)
    ensures r.Ok? ==> SortedBy(Variables(r.value), Name) && VariablesNamed(r.value)
  {
    var r := EnsureVars(e, vars, p, false);
    EnsureVarsSorted(e, vars, p, false);
    EnsureVarsNamed(e, vars, p, false);
    r
  }

  /** The variables of the result are those of the sorted `environmentvariables` element. */
  lemma {:induction false} EnsureVarsVariables(e: Element, vars: map<string, Option<string>>, p: Partition, asWritten: bool)
    ensures var h := EnsureChild(e, "environmentvariables");
      && FindAll(Child(h), "variable") == Variables(e)
      && (EnsureVars(e, vars, p, asWritten).Ok? ==>
            var ev := EnsureEach(Child(h), SortedList(vars.Keys), vars, p, asWritten).value;
            Variables(EnsureVars(e, vars, p, asWritten).value) == SortBy(FindAll(ev, "variable"), Name))
  {
    var h := EnsureChild(e, "environmentvariables");
    if EnsureVars(e, vars, p, asWritten).Ok? {
      var ev := EnsureEach(Child(h), SortedList(vars.Keys), vars, p, asWritten).value;
      var sorted := SortVariables(ev).value;
      EnsureChildPutFinds(e, "environmentvariables", sorted);
    }
  }

  lemma {:induction false} EnsureVarsSorted(e: Element, vars: map<string, Option<string>>, p: Partition, asWritten: bool)
    ensures EnsureVars(e, vars, p, asWritten).Ok? ==> SortedBy(Variables(EnsureVars(e, vars, p, asWritten).value), Name)
  {
    EnsureVarsVariables(e, vars, p, asWritten);
    if EnsureVars(e, vars, p, asWritten).Ok? {
      var h := EnsureChild(e, "environmentvariables");
      var ev := EnsureEach(Child(h), SortedList(vars.Keys), vars, p, asWritten).value;
      SortByFacts(FindAll(ev, "variable"), Name);
    }
  }

  /** Every variable carries a name: what sorting the variables by name needs. */
  predicate VariablesNamed(e: Element) {
    forall i :: 0 <= i < |Variables(e)| ==> "name" in Variables(e)[i].attrs
  }

  /** The ensure raises exactly when some variable has no name, and leaves only named ones. */
  lemma {:induction false} EnsureVarsNamed(e: Element, vars: map<string, Option<string>>, p: Partition, asWritten: bool)
    ensures EnsureVars(e, vars, p, asWritten).Ok? <==> VariablesNamed(e)
    ensures EnsureVars(e, vars, p, asWritten).Ok? ==> VariablesNamed(EnsureVars(e, vars, p, asWritten).value)
  {
    EnsureVarsVariables(e, vars, p, asWritten);
    var h := EnsureChild(e, "environmentvariables");
    CarryByFindAll(Child(h));
    if EnsureVars(e, vars, p, asWritten).Ok? {
      var ev := EnsureEach(Child(h), SortedList(vars.Keys), vars, p, asWritten).value;
      CarryByFindAll(ev);
      var vs := FindAll(ev, "variable");
      SortByFacts(vs, Name);
      var sorted := SortBy(vs, Name);
      forall i | 0 <= i < |sorted|
        ensures "name" in sorted[i].attrs
      {
        assert sorted[i] in multiset(vs);
      }
    }
  }

  /** Hypotheses of `ReadAfterSteps`: the loop's effect, seen on the variables. */
  predicate Rewritten(vs: seq<Element>, vs': seq<Element>, vars: map<string, Option<string>>, p: Partition) {
    && WellFormed(vs) && WellFormed(vs')
    && (forall k :: k in vars ==> exists c :: c in vs' && Name(c) == k)
    && (forall c :: c in vs' && Name(c) in vars ==> InPartition(c, p) && ValueText(c, p) == vars[Name(c)])
    && (forall v :: v in vs && Name(v) !in vars ==> v in vs')
    && (forall v :: v in vs' && Name(v) !in vars ==> v in vs)
  }

  lemma {:induction false} ReadWrittenName(vs: seq<Element>, vs': seq<Element>, vars: map<string, Option<string>>, p: Partition, q: Partition, k: string)
    requires Rewritten(vs, vs', vars, p) && k in vars
    ensures ReadPartition(vs', q).Ok?
    ensures (k in ReadPartition(vs', q).value <==> q == p)
    ensures k in ReadPartition(vs', q).value ==> ReadPartition(vs', q).value[k] == vars[k]
  {
    ReadWellFormed(vs', q);
    var c :| c in vs' && Name(c) == k;
    if k in ReadPartition(vs', q).value {
      var w :| w in vs' && InPartition(w, q) && Name(w) == k;
      NamesIdentify(vs', c, w);
    }
  }

  lemma {:induction false} ReadOtherName(vs: seq<Element>, vs': seq<Element>, vars: map<string, Option<string>>, p: Partition, q: Partition, k: string)
    requires Rewritten(vs, vs', vars, p) && k !in vars
    ensures ReadPartition(vs, q).Ok? && ReadPartition(vs', q).Ok?
    ensures (k in ReadPartition(vs', q).value <==> k in ReadPartition(vs, q).value)
    ensures k in ReadPartition(vs, q).value ==> ReadPartition(vs', q).value[k] == ReadPartition(vs, q).value[k]
  {
    ReadWellFormed(vs, q);
    ReadWellFormed(vs', q);
    if k in ReadPartition(vs', q).value {
      var w :| w in vs' && InPartition(w, q) && Name(w) == k;
      assert w in vs;
    }
    if k in ReadPartition(vs, q).value {
      var w :| w in vs && InPartition(w, q) && Name(w) == k;
      assert w in vs';
    }
  }

  lemma ReadsOk(vs: seq<Element>, q: Partition)
    requires WellFormed(vs)
    ensures ReadPartition(vs, q).Ok?
  {
  }

  /** The partition written gains the names with their values. */
  lemma {:induction false} ReadAfterStepsWritten(vs: seq<Element>, vs': seq<Element>, vars: map<string, Option<string>>, p: Partition)
    requires Rewritten(vs, vs', vars, p)
    ensures ReadPartition(vs, p).Ok? && ReadPartition(vs', p).Ok?
    ensures ReadPartition(vs', p).value == ReadPartition(vs, p).value + vars
  {
    ReadsOk(vs, p);
    ReadsOk(vs', p);
    var m := ReadPartition(vs, p).value;
    var m' := ReadPartition(vs', p).value;
    forall k
      ensures (k in m' <==> k in m + vars) && (k in m' ==> m'[k] == (m + vars)[k])
    {
      if k in vars {
        ReadWrittenName(vs, vs', vars, p, p, k);
      } else {
        ReadOtherName(vs, vs', vars, p, p, k);
      }
    }
    assert m'.Keys == (m + vars).Keys;
  }

  /** The other two partitions lose the names. */
  lemma {:induction false} ReadAfterStepsOther(vs: seq<Element>, vs': seq<Element>, vars: map<string, Option<string>>, p: Partition, q: Partition)
    requires Rewritten(vs, vs', vars, p) && q != p
    ensures ReadPartition(vs, q).Ok? && ReadPartition(vs', q).Ok?
    ensures ReadPartition(vs', q).value == ReadPartition(vs, q).value - vars.Keys
  {
    ReadsOk(vs, q);
    ReadsOk(vs', q);
    var m := ReadPartition(vs, q).value;
    var m' := ReadPartition(vs', q).value;
    forall k
      ensures (k in m' <==> k in m - vars.Keys) && (k in m' ==> m'[k] == (m - vars.Keys)[k])
    {
      if k in vars {
        ReadWrittenName(vs, vs', vars, p, q, k);
      } else {
        ReadOtherName(vs, vs', vars, p, q, k);
      }
    }
    assert m'.Keys == (m - vars.Keys).Keys;
  }

  /** Sorting after the loop keeps what the loop did. */
  lemma {:induction false} SortKeepsRewritten(vs: seq<Element>, vs1: seq<Element>, names: seq<string>, vars: map<string, Option<string>>, p: Partition)
    requires WellFormed(vs) && SteppedAll(vs, vs1, names, vars, p)
    requires forall k :: k in names <==> k in vars
    ensures Rewritten(vs, SortBy(vs1, Name), vars, p) && SortedBy(SortBy(vs1, Name), Name)
  {
    SortByDistinct(vs1, Name);
    SortByFacts(vs1, Name);
    var after := SortBy(vs1, Name);
    assert forall i :: 0 <= i < |after| ==> after[i] in vs1;
  }

  /** The corrected ensure does to the variables what `Rewritten` says. */
  lemma {:induction false} EnsureRewrites(e: Element, vars: map<string, Option<string>>, p: Partition)
    requires WellFormed(Variables(e))
    ensures EnsureEnvironmentVariables(e, vars, p).Ok?
    ensures var after := Variables(EnsureEnvironmentVariables(e, vars, p).value);
      Rewritten(Variables(e), after, vars, p) && SortedBy(after, Name)
  {
    var h := EnsureChild(e, "environmentvariables");
    var names := SortedList(vars.Keys);
    LoopOnEnsured(e, vars, p);
    var vs1 := FindAll(EnsureEach(Child(h), names, vars, p, false).value, "variable");
    SortedOnEnsured(e, vars, p);
    SortKeepsRewritten(Variables(e), vs1, names, vars, p);
  }

  lemma {:induction false} LoopOnEnsured(e: Element, vars: map<string, Option<string>>, p: Partition)
    requires WellFormed(Variables(e))
    ensures var h := EnsureChild(e, "environmentvariables");
      var names := SortedList(vars.Keys);
      && EnsureEach(Child(h), names, vars, p, false).Ok?
      && SteppedAll(Variables(e), FindAll(EnsureEach(Child(h), names, vars, p, false).value, "variable"), names, vars, p)
  {
    var h := EnsureChild(e, "environmentvariables");
    var names := SortedList(vars.Keys);
    assert Distinct(names) by {
      forall i, j | 0 <= i < j < |names|
        ensures names[i] != names[j]
      {
        assert Less(names[i], names[j]);
      }
    }
    EnsureVarsVariables(e, vars, p, false);
    EnsureEachFacts(Child(h), names, vars, p);
  }

  lemma {:induction false} SortedOnEnsured(e: Element, vars: map<string, Option<string>>, p: Partition)
    requires WellFormed(Variables(e))
    ensures var h := EnsureChild(e, "environmentvariables");
      var names := SortedList(vars.Keys);
      && EnsureEach(Child(h), names, vars, p, false).Ok?
      && EnsureEnvironmentVariables(e, vars, p).Ok?
      && Variables(EnsureEnvironmentVariables(e, vars, p).value)
           == SortBy(FindAll(EnsureEach(Child(h), names, vars, p, false).value, "variable"), Name)
  {
    var h := EnsureChild(e, "environmentvariables");
    var names := SortedList(vars.Keys);
    assert EnsureEach(Child(h), names, vars, p, false).Ok?
      && SortVariables(EnsureEach(Child(h), names, vars, p, false).value).Ok? by {
      LoopOnEnsured(e, vars, p);
      var vs1 := FindAll(EnsureEach(Child(h), names, vars, p, false).value, "variable");
      assert WellFormed(vs1);
    }
    EnsureVarsOk(e, vars, p, false);
  }

  /** When the loop and the sort raise nothing, neither does the ensure, and its variables
      are the loop's, sorted by name. */
  lemma {:induction false} EnsureVarsOk(e: Element, vars: map<string, Option<string>>, p: Partition, asWritten: bool)
    requires var h := EnsureChild(e, "environmentvariables");
      var each := EnsureEach(Child(h), SortedList(vars.Keys), vars, p, asWritten);
      each.Ok? && SortVariables(each.value).Ok?
    ensures EnsureVars(e, vars, p, asWritten).Ok?
    ensures Variables(EnsureVars(e, vars, p, asWritten).value)
      == SortBy(FindAll(EnsureEach(Child(EnsureChild(e, "environmentvariables")), SortedList(vars.Keys), vars, p, asWritten).value, "variable"), Name)
    ensures EnsureVars(e, vars, p, false) == EnsureEnvironmentVariables(e, vars, p)
    ensures EnsureVars(e, vars, p, true) == EnsureEnvironmentVariablesAsWritten(e, vars, p)
  {
    EnsureVarsVariables(e, vars, p, asWritten);
  }

  /** Ensuring a map of variables in partition `p`: on well-formed variables it raises
      nothing, keeps them well formed and sorted by name, puts exactly the given
      names, with their values, into `p`, takes them out of the other two maps,
      and leaves every other name where it was. */
  lemma {:induction false} EnsureThenRead(e: Element, vars: map<string, Option<string>>, p: Partition, q: Partition)
    requires WellFormed(Variables(e))
    ensures EnsureEnvironmentVariables(e, vars, p).Ok?
    ensures var after := Variables(EnsureEnvironmentVariables(e, vars, p).value);
      && WellFormed(after) && SortedBy(after, Name)
      && ReadPartition(Variables(e), q).Ok? && ReadPartition(after, q).Ok?
      && ReadPartition(after, q).value ==
           if q == p then ReadPartition(Variables(e), q).value + vars
           else ReadPartition(Variables(e), q).value - vars.Keys
  {
    EnsureRewrites(e, vars, p);
    var after := Variables(EnsureEnvironmentVariables(e, vars, p).value);
    if q == p {
      ReadAfterStepsWritten(Variables(e), after, vars, p);
    } else {
      ReadAfterStepsOther(Variables(e), after, vars, p, q);
    }
  }

  /** The as-written update and the corrected one differ only when a value that is not
      encrypted is written over a variable holding an `encryptedValue` child. */
  lemma {:induction false} UpdateVariableAgrees(v: Element, value: Option<string>, p: Partition)
    requires Encrypted(p) || !IsEncrypted(v)
    ensures UpdateVariableAsWritten(v, value, p) == UpdateVariable(v, value, p)
    ensures !Encrypted(p) ==> !IsEncrypted(UpdateVariable(v, value, p))
  {
    if !Encrypted(p) {
      FilterKeepsAll(v.children, NotTag("encryptedValue"));
      assert RemoveAllChildren(Some(v), Some("encryptedValue")).value == v;
    }
  }

  /** No variable of `ev` whose name is among `names` holds an `encryptedValue` child. */
  predicate NoEncryptedNamed(ev: Element, names: seq<string>) {
    forall c :: c in ev.children && c.tag == "variable" && Name(c) in names ==> !IsEncrypted(c)
  }

  /** One step of the loop: as written and corrected agree on a variable that is
      encrypted only when an encrypted value is written; afterwards every variable is
      the updated one or was there before. */
  lemma {:induction false} EnsureVariableAgrees(ev: Element, name: string, value: Option<string>, p: Partition)
    requires Encrypted(p) || NoEncryptedNamed(ev, [name])
    ensures EnsureVariable(ev, name, value, p, true) == EnsureVariable(ev, name, value, p, false)
    ensures EnsureVariable(ev, name, value, p, false).Ok? && !Encrypted(p) ==>
      forall c :: c in EnsureVariable(ev, name, value, p, false).value.children ==>
        c in ev.children || (c.tag == "variable" && !IsEncrypted(c))
  {
    var k := EnsureChildWithAttribute(ev, "variable", "name", name);
    if k.Ok? {
      var h := k.value;
      var v := Child(h);
      var created := FirstIndex(ev.children, HasAttrValue("variable", "name", name)).None?;
      if !created {
        assert v in ev.children;
      }
      assert Encrypted(p) || !IsEncrypted(v);
      UpdateVariableAgrees(v, value, p);
      var u := UpdateVariable(v, value, p);
      var r := Put(h, u);
      forall c | c in r.children
        ensures c in ev.children || (c.tag == "variable" && !IsEncrypted(c)) || Encrypted(p)
      {
        var j :| 0 <= j < |r.children| && r.children[j] == c;
        if j != h.index && j < |ev.children| {
          assert c == ev.children[j];
        }
      }
    }
  }

  /** The as-written loop is the corrected one when the partition is the encrypted one
      or no variable named in the loop holds an `encryptedValue` child. */
  lemma {:induction false} EnsureEachAgrees(ev: Element, names: seq<string>, vars: map<string, Option<string>>, p: Partition)
    requires forall k :: k in names ==> k in vars
    requires Encrypted(p) || NoEncryptedNamed(ev, names)
    ensures EnsureEach(ev, names, vars, p, true) == EnsureEach(ev, names, vars, p, false)
    decreases |names|
  {
    if |names| > 0 {
      EnsureVariableAgrees(ev, names[0], vars[names[0]], p);
      var next := EnsureVariable(ev, names[0], vars[names[0]], p, false);
      if next.Ok? {
        assert Encrypted(p) || NoEncryptedNamed(next.value, names[1..]);
        EnsureEachAgrees(next.value, names[1..], vars, p);
      }
    }
  }

  /** `ensure_environment_variables` as written is the corrected ensure when the
      partition is the encrypted one or no variable named in `vars` holds an
      `encryptedValue` child. */
  lemma {:induction false} EnsureEnvironmentVariablesAgrees(e: Element, vars: map<string, Option<string>>, p: Partition)
    requires Encrypted(p) || forall v :: v in Variables(e) && Name(v) in vars ==> !IsEncrypted(v)
    ensures EnsureEnvironmentVariablesAsWritten(e, vars, p) == EnsureEnvironmentVariables(e, vars, p)
  {
    var h := EnsureChild(e, "environmentvariables");
    var names := SortedList(vars.Keys);
    NoEncryptedInEnsured(e, vars, p);
    EnsureEachAgrees(Child(h), names, vars, p);
    EnsureVarsAgree(e, vars, p);
    EnsureVarsUnfold(e, vars, p);
  }

  /** Loops that agree give ensures that agree. */
  lemma EnsureVarsAgree(e: Element, vars: map<string, Option<string>>, p: Partition)
    requires var ev := Child(EnsureChild(e, "environmentvariables"));
      EnsureEach(ev, SortedList(vars.Keys), vars, p, true) == EnsureEach(ev, SortedList(vars.Keys), vars, p, false)
    ensures EnsureVars(e, vars, p, true) == EnsureVars(e, vars, p, false)
  {
  }

  /** The hypothesis on the variables of `e` is the loop's hypothesis on the ensured
      `environmentvariables` child. */
  lemma {:induction false} NoEncryptedInEnsured(e: Element, vars: map<string, Option<string>>, p: Partition)
    requires Encrypted(p) || forall v :: v in Variables(e) && Name(v) in vars ==> !IsEncrypted(v)
    ensures Encrypted(p) || NoEncryptedNamed(Child(EnsureChild(e, "environmentvariables")), SortedList(vars.Keys))
  {
    if !Encrypted(p) {
      var h := EnsureChild(e, "environmentvariables");
      var names := SortedList(vars.Keys);
      VariablesOfEnsured(e);
      forall c | c in Child(h).children && c.tag == "variable" && Name(c) in names
        ensures !IsEncrypted(c)
      {
        assert c in Variables(e);
      }
    }
  }

  /** Both ensures are `EnsureVars`, differing only in the update they use. */
  lemma {:induction false} EnsureVarsUnfold(e: Element, vars: map<string, Option<string>>, p: Partition)
    ensures EnsureEnvironmentVariablesAsWritten(e, vars, p) == EnsureVars(e, vars, p, true)
    ensures EnsureEnvironmentVariables(e, vars, p) == EnsureVars(e, vars, p, false)
  {
  }

  /** Every variable child of the ensured `environmentvariables` is a variable of `e`. */
  lemma {:induction false} VariablesOfEnsured(e: Element)
    ensures forall c :: c in Child(EnsureChild(e, "environmentvariables")).children && c.tag == "variable" ==> c in Variables(e)
  {
    var h := EnsureChild(e, "environmentvariables");
    EnsureVarsVariables(e, map[], Plain, false);
    FilterMembers(Child(h).children, IsTag("variable"));
  }

  /** `EnsureThenRead` for the ensure as written, on the inputs where it agrees with the
      corrected one. */
  lemma {:induction false} EnsureThenReadAsWritten(e: Element, vars: map<string, Option<string>>, p: Partition, q: Partition)
    requires WellFormed(Variables(e))
    requires Encrypted(p) || forall v :: v in Variables(e) && Name(v) in vars ==> !IsEncrypted(v)
    ensures EnsureEnvironmentVariablesAsWritten(e, vars, p).Ok?
    ensures var after := Variables(EnsureEnvironmentVariablesAsWritten(e, vars, p).value);
      && WellFormed(after) && SortedBy(after, Name)
      && ReadPartition(Variables(e), q).Ok? && ReadPartition(after, q).Ok?
      && ReadPartition(after, q).value ==
           if q == p then ReadPartition(Variables(e), q).value + vars
           else ReadPartition(Variables(e), q).value - vars.Keys
  {
    EnsureEnvironmentVariablesAgrees(e, vars, p);
    EnsureThenRead(e, vars, p, q);
  }

  /** A job whose only variable is the encrypted variable `n`. */
  function JobWithEncryptedVariable(n: string, x: string): Element {
    Element("job", map[], None, [Element("environmentvariables", map[], None, [EncryptedVariable(n, x)])])
  }

  lemma {:induction false} EncryptedVariableReads(n: string, x: string)
    ensures WellFormed(Variables(JobWithEncryptedVariable(n, x)))
    ensures ReadPartition(Variables(JobWithEncryptedVariable(n, x)), EncryptedSecure) == Ok(map[n := Some(x)])
    ensures ReadPartition(Variables(JobWithEncryptedVariable(n, x)), Plain) == Ok(map[])
  {
    var e := JobWithEncryptedVariable(n, x);
    var v := EncryptedVariable(n, x);
    assert Variables(e) == [v];
    assert [v][..0] == [];
  }

  /** The as-written loop over the single name `n` updates the one variable in place. */
  lemma {:induction false} EnsureEachOverEncryptedAsWritten(n: string, x: string, value: Option<string>)
    ensures var ev := JobWithEncryptedVariable(n, x).children[0];
      EnsureEach(ev, [n], map[n := value], Plain, true)
        == Ok(ev.(children := [UpdateVariableAsWritten(EncryptedVariable(n, x), value, Plain)]))
  {
    var ev := JobWithEncryptedVariable(n, x).children[0];
    var u := UpdateVariableAsWritten(EncryptedVariable(n, x), value, Plain);
    EnsureChildWithAttributeOnly(ev, "variable", "name", n, u);
    EnsureEachSingle(ev, n, map[n := value], Plain, true);
  }

  /** The loop over one name is one step. */
  lemma {:induction false} EnsureEachSingle(ev: Element, n: string, vars: map<string, Option<string>>, p: Partition, asWritten: bool)
    requires n in vars
    ensures EnsureEach(ev, [n], vars, p, asWritten) == EnsureVariable(ev, n, vars[n], p, asWritten)
  {
    assert [n][1..] == [];
  }

  /** After the as-written ensure, the only variable is the updated one. */
  lemma {:induction false} EnsureOverEncryptedAsWrittenVariables(n: string, x: string, value: Option<string>)
    ensures var e := JobWithEncryptedVariable(n, x);
      && EnsureEnvironmentVariablesAsWritten(e, map[n := value], Plain).Ok?
      && Variables(EnsureEnvironmentVariablesAsWritten(e, map[n := value], Plain).value)
           == [UpdateVariableAsWritten(EncryptedVariable(n, x), value, Plain)]
  {
    var e := JobWithEncryptedVariable(n, x);
    var vars := map[n := value];
    var h := EnsureChild(e, "environmentvariables");
    var u := UpdateVariableAsWritten(EncryptedVariable(n, x), value, Plain);
    var ev1 := e.children[0].(children := [u]);
    assert Child(h) == e.children[0] by {
      assert IsTag("environmentvariables")(e.children[0]);
    }
    assert EnsureEach(Child(h), SortedList(vars.Keys), vars, Plain, true) == Ok(ev1) by {
      assert SortedList(vars.Keys) == [n] by {
        var s := SortedList(vars.Keys);
        assert |s| == 1 && s[0] in vars.Keys;
      }
      EnsureEachOverEncryptedAsWritten(n, x, value);
    }
    EnsureVarsSingle(e, vars, Plain, true, ev1, u);
  }

  /** When the loop leaves one variable `u` as the only child, the result holds just `u`. */
  lemma {:induction false} EnsureVarsSingle(e: Element, vars: map<string, Option<string>>, p: Partition, asWritten: bool, ev: Element, u: Element)
    requires EnsureEach(Child(EnsureChild(e, "environmentvariables")), SortedList(vars.Keys), vars, p, asWritten) == Ok(ev)
    requires ev.children == [u] && u.tag == "variable" && "name" in u.attrs
    ensures EnsureVars(e, vars, p, asWritten).Ok? && Variables(EnsureVars(e, vars, p, asWritten).value) == [u]
  {
    assert FindAll(ev, "variable") == [u] && SortBy([u], Name) == [u] by {
      assert [u][1..] == [];
      SortByFacts([u], Name);
    }
    EnsureVarsOk(e, vars, p, asWritten);
  }

  /** A variable in no partition contributes to none of the three maps. */
  lemma {:induction false} OrphanReadsEmpty(u: Element)
    requires forall p :: !InPartition(u, p)
    ensures forall q :: ReadPartition([u], q) == Ok(map[])
  {
    forall q
      ensures ReadPartition([u], q) == Ok(map[])
    {
      assert [u][..0] == [];
    }
  }

  /** As written, ensuring a plain value for an encrypted variable leaves the
      variable in none of the three maps. */
  lemma {:induction false} EnsurePlainOverEncryptedAsWritten(n: string, x: string, value: Option<string>)
    ensures var e := JobWithEncryptedVariable(n, x);
      && ReadPartition(Variables(e), EncryptedSecure) == Ok(map[n := Some(x)])
      && EnsureEnvironmentVariablesAsWritten(e, map[n := value], Plain).Ok?
      && var after := Variables(EnsureEnvironmentVariablesAsWritten(e, map[n := value], Plain).value);
         forall q :: ReadPartition(after, q) == Ok(map[])
  {
    EncryptedVariableReads(n, x);
    EnsureOverEncryptedAsWrittenVariables(n, x, value);
    UpdateVariableAsWrittenLosesEncrypted(n, x, value);
    OrphanReadsEmpty(UpdateVariableAsWritten(EncryptedVariable(n, x), value, Plain));
  }

  lemma {:induction false} EnsurePlainOverEncryptedPlain(n: string, x: string, value: Option<string>)
    ensures var e := JobWithEncryptedVariable(n, x);
      && EnsureEnvironmentVariables(e, map[n := value], Plain).Ok?
      && ReadPartition(Variables(EnsureEnvironmentVariables(e, map[n := value], Plain).value), Plain) == Ok(map[n := value])
  {
    var e := JobWithEncryptedVariable(n, x);
    assert WellFormed(Variables(e)) && ReadPartition(Variables(e), Plain) == Ok(map[]) by {
      EncryptedVariableReads(n, x);
    }
    EnsureIntoEmptyPartition(e, map[n := value], Plain);
  }

  /** Into a partition that was empty, the ensured variables are all it then holds. */
  lemma {:induction false} EnsureIntoEmptyPartition(e: Element, vars: map<string, Option<string>>, p: Partition)
    requires WellFormed(Variables(e)) && ReadPartition(Variables(e), p) == Ok(map[])
    ensures EnsureEnvironmentVariables(e, vars, p).Ok?
    ensures ReadPartition(Variables(EnsureEnvironmentVariables(e, vars, p).value), p) == Ok(vars)
  {
    EnsureRewrites(e, vars, p);
    ReadIntoEmpty(Variables(e), Variables(EnsureEnvironmentVariables(e, vars, p).value), vars, p);
  }

  lemma {:induction false} ReadIntoEmpty(vs: seq<Element>, vs': seq<Element>, vars: map<string, Option<string>>, p: Partition)
    requires Rewritten(vs, vs', vars, p) && ReadPartition(vs, p) == Ok(map[])
    ensures ReadPartition(vs', p) == Ok(vars)
  {
    var before := ReadPartition(vs, p).value;
    assert ReadPartition(vs', p).Ok? && ReadPartition(vs', p).value == before + vars by {
      ReadAfterStepsWritten(vs, vs', vars, p);
    }
    EmptyPlus(vars);
  }

  lemma {:induction false} EnsurePlainOverEncryptedEncrypted(n: string, x: string, value: Option<string>)
    ensures var e := JobWithEncryptedVariable(n, x);
      && EnsureEnvironmentVariables(e, map[n := value], Plain).Ok?
      && ReadPartition(Variables(EnsureEnvironmentVariables(e, map[n := value], Plain).value), EncryptedSecure) == Ok(map[])
  {
    var e := JobWithEncryptedVariable(n, x);
    var vars := map[n := value];
    assert WellFormed(Variables(e)) && ReadPartition(Variables(e), EncryptedSecure) == Ok(map[n := Some(x)]) by {
      EncryptedVariableReads(n, x);
    }
    EnsureThenRead(e, vars, Plain, EncryptedSecure);
    assert map[n := Some(x)] - vars.Keys == map[];
  }

  /** The corrected version puts the variable in the plain map with its new value
      and takes it out of the encrypted one. */
  lemma {:induction false} EnsurePlainOverEncrypted(n: string, x: string, value: Option<string>)
    ensures var e := JobWithEncryptedVariable(n, x);
      && EnsureEnvironmentVariables(e, map[n := value], Plain).Ok?
      && var after := Variables(EnsureEnvironmentVariables(e, map[n := value], Plain).value);
         && ReadPartition(after, Plain) == Ok(map[n := value])
         && ReadPartition(after, EncryptedSecure) == Ok(map[])
  {
    EnsurePlainOverEncryptedPlain(n, x, value);
    EnsurePlainOverEncryptedEncrypted(n, x, value);
  }

  // ---------------------------------------------------------------------------
  // EnvironmentVariableMixin: removal

  /** `without_any_environment_variables` (`_remove_all`): empties the first
      `environmentvariables` child, when there is one, of every child. */
  function RemoveAllVariables(e: Element): (r: Element)
    ensures Variables(r) == []
    ensures r.tag == e.tag && r.attrs == e.attrs
    ensures Find(r, "environmentvariables").Some? <==> Find(e, "environmentvariables").Some?
    ensures forall t :: t != "environmentvariables" ==> FindAll(r, t) == FindAll(e, t)
  {
    var f := (c: Element) => c.(children := []);
    var r := ModifyChild(e, "environmentvariables", f);
    if Find(e, "environmentvariables").Some? then
      ModifyChildIsPut(e, "environmentvariables", f);
      var c := f(Find(e, "environmentvariables").value);
      EnsureChildPutFinds(e, "environmentvariables", c);
      assert forall t :: t != "environmentvariables" ==> FindAll(r, t) == FindAll(e, t) by {
        forall t | t != "environmentvariables"
          ensures FindAll(r, t) == FindAll(e, t)
        {
          EnsureChildPutKeepsOthers(e, "environmentvariables", c, t);
        }
      }
      r
    else
      r
  }

  /** After removing them all, every one of the three maps is empty. */
  lemma RemoveAllReadsEmpty(e: Element, q: Partition)
    ensures WellFormed(Variables(RemoveAllVariables(e)))
    ensures ReadPartition(Variables(RemoveAllVariables(e)), q) == Ok(map[])
  {
  }

  /** `remove_environment_variable(name)` (`_remove`), as written: read the plain
      and the encrypted maps, remove every variable, then ensure the plain map
      without `name` and the encrypted map. The unencrypted secure map is not
      read back. */
  function RemoveVariableAsWritten(e: Element, name: string): (r: Result<Element>)
    ensures r.Ok? <==> ReadPartition(Variables(e), Plain).Ok? && ReadPartition(Variables(e), EncryptedSecure).Ok?
  {
    var plain :- ReadPartition(Variables(e), Plain);
    var encrypted :- ReadPartition(Variables(e), EncryptedSecure);
    var cleared := RemoveAllVariables(e);
    // With no variable left, neither ensure can meet a nameless one.
    var withPlain := EnsureEnvironmentVariablesAsWritten(cleared, plain - {name}, Plain).value;
    EnsureEnvironmentVariablesAsWritten(withPlain, encrypted, EncryptedSecure)
  }

  /** The same removal that also reads back and restores the unencrypted secure map. */
  function RemoveVariable(e: Element, name: string): (r: Result<Element>)
    ensures r.Ok? <==> (&& ReadPartition(Variables(e), Plain).Ok?
                        && ReadPartition(Variables(e), EncryptedSecure).Ok?
                        && ReadPartition(Variables(e), UnencryptedSecure).Ok?)
  {
    var plain :- ReadPartition(Variables(e), Plain);
    var encrypted :- ReadPartition(Variables(e), EncryptedSecure);
    var secure :- ReadPartition(Variables(e), UnencryptedSecure);
    var cleared := RemoveAllVariables(e);
    // With no variable left, no ensure can meet a nameless one.
    var withPlain := EnsureEnvironmentVariables(cleared, plain - {name}, Plain).value;
    var withEncrypted := EnsureEnvironmentVariables(withPlain, encrypted, EncryptedSecure).value;
    EnsureEnvironmentVariables(withEncrypted, secure, UnencryptedSecure)
  }

  /** Ensuring `vars` into `p` on variables that read as `before` in every partition. */
  lemma {:induction false} EnsureReads(e: Element, vars: map<string, Option<string>>, p: Partition, q: Partition)
    requires WellFormed(Variables(e))
    ensures EnsureEnvironmentVariables(e, vars, p).Ok?
    ensures WellFormed(Variables(EnsureEnvironmentVariables(e, vars, p).value))
    ensures ReadPartition(Variables(e), q).Ok?
    ensures ReadPartition(Variables(EnsureEnvironmentVariables(e, vars, p).value), q)
      == Ok(if q == p then ReadPartition(Variables(e), q).value + vars else ReadPartition(Variables(e), q).value - vars.Keys)
  {
    EnsureThenRead(e, vars, p, q);
  }

  /** Taking away keys a map does not have changes nothing; nor does adding it to the empty map. */
  lemma MinusDisjoint(m: map<string, Option<string>>, ks: set<string>)
    requires m.Keys !! ks
    ensures m - ks == m
  {
  }

  lemma EmptyPlus(m: map<string, Option<string>>)
    ensures map[] + m == m
  {
  }

  /** The first two steps of the removal: on a cleared element, the plain map then
      the encrypted one. */
  lemma {:induction false} RemoveFirstSteps(e: Element, plain: map<string, Option<string>>, encrypted: map<string, Option<string>>, q: Partition)
    requires Variables(e) == []
    requires plain.Keys !! encrypted.Keys
    ensures EnsureEnvironmentVariables(e, plain, Plain).Ok?
    ensures var w := EnsureEnvironmentVariables(e, plain, Plain).value;
      && EnsureEnvironmentVariables(w, encrypted, EncryptedSecure).Ok?
      && var w' := EnsureEnvironmentVariables(w, encrypted, EncryptedSecure).value;
         && WellFormed(Variables(w'))
         && ReadPartition(Variables(w'), q)
              == Ok(if q == Plain then plain else if q == EncryptedSecure then encrypted else map[])
  {
    assert WellFormed(Variables(e));
    EnsureReads(e, plain, Plain, q);
    var w := EnsureEnvironmentVariables(e, plain, Plain).value;
    EnsureReads(w, encrypted, EncryptedSecure, q);
    if q == Plain {
      MinusDisjoint(plain, encrypted.Keys);
    }
    EmptyPlus(plain);
    EmptyPlus(encrypted);
  }

  /** The plain map without `name` and the encrypted map, as the removal reads them. */
  function PlainWithout(e: Element, name: string): map<string, Option<string>>
    requires WellFormed(Variables(e))
  {
    ReadWellFormed(Variables(e), Plain);
    ReadPartition(Variables(e), Plain).value - {name}
  }

  function EncryptedOf(e: Element): map<string, Option<string>>
    requires WellFormed(Variables(e))
  {
    ReadWellFormed(Variables(e), EncryptedSecure);
    ReadPartition(Variables(e), EncryptedSecure).value
  }

  /** The element after the first two ensures of the removal. */
  function ReEnsured(e: Element, name: string): Result<Element>
    requires WellFormed(Variables(e))
  {
    var withPlain :- EnsureEnvironmentVariables(RemoveAllVariables(e), PlainWithout(e, name), Plain);
    EnsureEnvironmentVariables(withPlain, EncryptedOf(e), EncryptedSecure)
  }

  /** Both removals first clear the variables and put back the plain map without `name`
      and the encrypted map. */
  lemma {:induction false} ReEnsuredReads(e: Element, name: string, q: Partition)
    requires WellFormed(Variables(e))
    ensures ReEnsured(e, name).Ok?
    ensures WellFormed(Variables(ReEnsured(e, name).value))
    ensures ReadPartition(Variables(ReEnsured(e, name).value), q)
      == Ok(if q == Plain then PlainWithout(e, name) else if q == EncryptedSecure then EncryptedOf(e) else map[])
  {
    assert PlainWithout(e, name).Keys !! EncryptedOf(e).Keys by {
      PartitionMapsDisjoint(Variables(e), Plain, EncryptedSecure);
    }
    RemoveFirstSteps(RemoveAllVariables(e), PlainWithout(e, name), EncryptedOf(e), q);
  }

  lemma {:induction false} RemoveVariableAsWrittenIsReEnsured(e: Element, name: string)
    requires WellFormed(Variables(e))
    ensures RemoveVariableAsWritten(e, name) == ReEnsured(e, name)
  {
    ReadWellFormed(Variables(e), Plain);
    ReadWellFormed(Variables(e), EncryptedSecure);
    var cleared := RemoveAllVariables(e);
    EnsureEnvironmentVariablesAgrees(cleared, PlainWithout(e, name), Plain);
    var withPlain := EnsureEnvironmentVariables(cleared, PlainWithout(e, name), Plain);
    if withPlain.Ok? {
      EnsureEnvironmentVariablesAgrees(withPlain.value, EncryptedOf(e), EncryptedSecure);
    }
  }

  /** On well-formed variables the removal as written succeeds, drops `name` from
      the plain map, keeps the encrypted map, and empties the unencrypted secure map. */
  lemma {:induction false} RemoveVariableAsWrittenReads(e: Element, name: string, q: Partition)
    requires WellFormed(Variables(e))
    ensures RemoveVariableAsWritten(e, name).Ok?
    ensures ReadPartition(Variables(e), q).Ok?
    ensures ReadPartition(Variables(RemoveVariableAsWritten(e, name).value), q) ==
      Ok(match q
         case Plain => ReadPartition(Variables(e), Plain).value - {name}
         case EncryptedSecure => ReadPartition(Variables(e), EncryptedSecure).value
         case UnencryptedSecure => map[])
  {
    ReadWellFormed(Variables(e), q);
    RemoveVariableAsWrittenIsReEnsured(e, name);
    ReEnsuredReads(e, name, q);
  }

  /** The unencrypted secure map, which the corrected removal reads back. */
  function SecureOf(e: Element): map<string, Option<string>>
    requires WellFormed(Variables(e))
  {
    ReadWellFormed(Variables(e), UnencryptedSecure);
    ReadPartition(Variables(e), UnencryptedSecure).value
  }

  lemma {:induction false} RemoveVariableIsReEnsured(e: Element, name: string)
    requires WellFormed(Variables(e))
    ensures ReEnsured(e, name).Ok?
    ensures RemoveVariable(e, name) == EnsureEnvironmentVariables(ReEnsured(e, name).value, SecureOf(e), UnencryptedSecure)
  {
    ReadWellFormed(Variables(e), Plain);
    ReadWellFormed(Variables(e), EncryptedSecure);
    ReadWellFormed(Variables(e), UnencryptedSecure);
    ReEnsuredReads(e, name, Plain);
  }

  /** On well-formed variables the corrected removal drops `name` from the plain
      map and keeps the other two maps as they were. */
  lemma {:induction false} RemoveVariableReads(e: Element, name: string, q: Partition)
    requires WellFormed(Variables(e))
    ensures RemoveVariable(e, name).Ok?
    ensures ReadPartition(Variables(e), q).Ok?
    ensures ReadPartition(Variables(RemoveVariable(e, name).value), q) ==
      Ok(if q == Plain then ReadPartition(Variables(e), Plain).value - {name} else ReadPartition(Variables(e), q).value)
  {
    ReadWellFormed(Variables(e), q);
    RemoveVariableIsReEnsured(e, name);
    var w := ReEnsured(e, name).value;
    ReEnsuredReads(e, name, q);
    EnsureReads(w, SecureOf(e), UnencryptedSecure, q);
    if q == Plain {
      assert PlainWithout(e, name).Keys !! SecureOf(e).Keys by {
        PartitionMapsDisjoint(Variables(e), Plain, UnencryptedSecure);
      }
      MinusDisjoint(PlainWithout(e, name), SecureOf(e).Keys);
    } else if q == EncryptedSecure {
      assert EncryptedOf(e).Keys !! SecureOf(e).Keys by {
        PartitionMapsDisjoint(Variables(e), EncryptedSecure, UnencryptedSecure);
      }
      MinusDisjoint(EncryptedOf(e), SecureOf(e).Keys);
    } else {
      EmptyPlus(SecureOf(e));
    }
  }

  /** A job whose only variable is the unencrypted secure variable `n` with value `s`. */
  function JobWithSecureVariable(n: string, s: string): Element {
    var v := Element("variable", map["name" := n, "secure" := "true"], None, [TextElement("value", s)]);
    Element("job", map[], None, [Element("environmentvariables", map[], None, [v])])
  }

  lemma {:induction false} SecureVariableReads(n: string, s: string)
    ensures WellFormed(Variables(JobWithSecureVariable(n, s)))
    ensures ReadPartition(Variables(JobWithSecureVariable(n, s)), UnencryptedSecure) == Ok(map[n := Some(s)])
  {
    var e := JobWithSecureVariable(n, s);
    var v := e.children[0].children[0];
    assert Variables(e) == [v];
    assert [v][..0] == [];
  }

  /** As written, removing any name drops the unencrypted secure variable too. */
  lemma {:induction false} RemoveVariableAsWrittenDropsSecure(n: string, s: string, name: string)
    ensures var e := JobWithSecureVariable(n, s);
      && ReadPartition(Variables(e), UnencryptedSecure) == Ok(map[n := Some(s)])
      && RemoveVariableAsWritten(e, name).Ok?
      && ReadPartition(Variables(RemoveVariableAsWritten(e, name).value), UnencryptedSecure) == Ok(map[])
  {
    SecureVariableReads(n, s);
    RemoveVariableAsWrittenReads(JobWithSecureVariable(n, s), name, UnencryptedSecure);
  }

  /** The corrected removal keeps it. */
  lemma {:induction false} RemoveVariableKeepsSecure(n: string, s: string, name: string)
    ensures var e := JobWithSecureVariable(n, s);
      && RemoveVariable(e, name).Ok?
      && ReadPartition(Variables(RemoveVariable(e, name).value), UnencryptedSecure) == Ok(map[n := Some(s)])
  {
    SecureVariableReads(n, s);
    RemoveVariableReads(JobWithSecureVariable(n, s), name, UnencryptedSecure);
  }
}
