/** `CommonEqualityMixin`: equality of value types and node views by class and field
    dictionary, its negation, and a hash taken from the string form.

    A Python object is its class and its field dictionary; the class hierarchy gives each
    class the set of classes it is an instance of (itself and its ancestors). */
module Mixins {
  import opened Xml

  datatype Obj<V> = Obj(cls: string, fields: map<string, V>)

  /** For each class, the classes its instances are instances of. */
  type Hierarchy = map<string, set<string>>

  function Ancestors(h: Hierarchy, cls: string): set<string> {
    if cls in h then h[cls] else {cls}
  }

  /** Every class is among its own ancestors, and no two different classes are each
      other's ancestors. */
  predicate WellFormed(h: Hierarchy) {
    && (forall c :: c in h ==> c in h[c])
    && (forall c, d :: c in h && d in h && c in h[d] && d in h[c] ==> c == d)
  }

  /** `isinstance(o, cls)` */
  predicate IsInstance(h: Hierarchy, o: Obj, cls: string) {
    cls in Ancestors(h, o.cls)
  }

  /** `self.__eq__(other)`: `other` is an instance of `self`'s class and the field
      dictionaries are equal. */
  predicate MixinEq<V(==)>(h: Hierarchy, self: Obj<V>, other: Obj<V>) {
    IsInstance(h, other, self.cls) && self.fields == other.fields
  }

  /** `self.__ne__(other)` */
  predicate MixinNe<V(==)>(h: Hierarchy, self: Obj<V>, other: Obj<V>)
    ensures MixinNe(h, self, other) <==> !MixinEq(h, self, other)
  {
    !MixinEq(h, self, other)
  }

  /** The `==` operator: when the right operand's class is a proper subclass of the left
      one's, Python asks the right operand first, and the mixin answers with a bool. */
  predicate PyEq<V(==)>(h: Hierarchy, a: Obj<V>, b: Obj<V>) {
    if a.cls != b.cls && IsInstance(h, b, a.cls) then MixinEq(h, b, a) else MixinEq(h, a, b)
  }

  /** Under a well-formed hierarchy `==` holds exactly for objects of the same class with
      equal fields; so it is reflexive, symmetric and transitive. */
  lemma PyEqIsSameClassAndFields<V>(h: Hierarchy, a: Obj<V>, b: Obj<V>)
    requires WellFormed(h)
    ensures PyEq(h, a, b) <==> a.cls == b.cls && a.fields == b.fields
  {
  }

  /** The method on its own is not symmetric: a base-class object "equals" a subclass
      object with the same fields but not the other way round, while `==` says no both ways. */
  lemma {:induction false} MixinEqNotSymmetric()
    ensures var h: Hierarchy := map["Base" := {"Base"}, "Sub" := {"Sub", "Base"}];
      var base: Obj<int> := Obj("Base", map[]);
      var sub: Obj<int> := Obj("Sub", map[]);
      && WellFormed(h)
      && MixinEq(h, base, sub) && !MixinEq(h, sub, base)
      && !PyEq(h, base, sub) && !PyEq(h, sub, base)
  {
    var h: Hierarchy := map["Base" := {"Base"}, "Sub" := {"Sub", "Base"}];
    assert "Sub" !in h["Base"];
  }

  /** `hash(self)` is `hash(str(self))`; the string form and the string hash are parameters. */
  function Hash<V>(o: Obj<V>, str: Obj<V> -> string, hashStr: string -> int): int {
    hashStr(str(o))
  }

  /** Objects with the same string form hash alike, whatever their fields. */
  lemma HashFollowsStr<V>(a: Obj<V>, b: Obj<V>, str: Obj<V> -> string, hashStr: string -> int)
    requires str(a) == str(b)
    ensures Hash(a, str, hashStr) == Hash(b, str, hashStr)
  {
  }

  /** A node view (a job, a stage, an agent): an object whose one field is its element. */
  function NodeView(cls: string, e: Element): (o: Obj<Element>)
    ensures o.fields.Keys == {"element"} && o.fields["element"] == e
  {
    Obj(cls, map["element" := e])
  }

  /** Two views of the same class are equal exactly when their elements are. */
  lemma {:induction false} NodeViewEq(h: Hierarchy, cls: string, a: Element, b: Element)
    requires WellFormed(h)
    ensures PyEq(h, NodeView(cls, a), NodeView(cls, b)) <==> a == b
  {
    PyEqIsSameClassAndFields(h, NodeView(cls, a), NodeView(cls, b));
    if a != b {
      assert NodeView(cls, a).fields["element"] != NodeView(cls, b).fields["element"];
    }
  }
}
