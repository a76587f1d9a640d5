/** An `agent` element under `agents`: a node view with a required `hostname` attribute and
    the resources of `ResourceMixin`. */
module Agents {
  import opened Wrappers
  import opened Xml
  import Generic
  import Mixins

  /** `hostname`: the attribute, read with `attrib[...]`, so a missing one raises KeyError. */
  function Hostname(agent: Element): (r: Result<string>)
    ensures r.Ok? <==> "hostname" in agent.attrs
    ensures r.Ok? ==> r.value == agent.attrs["hostname"]
  {
    Required(agent.attrs, "hostname")
  }

  /** `Agent(element)` as an object for `CommonEqualityMixin`. */
  function View(agent: Element): Mixins.Obj<Element> {
    Mixins.NodeView("Agent", agent)
  }

  /** `ensure_resource(name)` on an agent, as the source does it. An agent without a
      `resources` child has no resources; ensuring a name on it creates the child and gives
      exactly the parsed name (no text for the empty name); ensuring a name whose parsed
      text is new grows the set by one; the hostname is kept; for every non-empty name this
      is the corrected `Generic.EnsureResource`. */
  lemma {:induction false} AgentResources(agent: Element, name: string)
    ensures Find(agent, "resources").None? ==>
      && Generic.Resources(agent) == {}
      && Generic.Resources(Generic.EnsureResourceAsWritten(agent, name)) == {ParsedText(name)}
      && Find(Generic.EnsureResourceAsWritten(agent, name), "resources").Some?
    ensures Some(name) !in Generic.Resources(agent) && ParsedText(name) !in Generic.Resources(agent) ==>
      |Generic.Resources(Generic.EnsureResourceAsWritten(agent, name))| == |Generic.Resources(agent)| + 1
    ensures Hostname(Generic.EnsureResourceAsWritten(agent, name)) == Hostname(agent)
    ensures name != "" ==> Generic.EnsureResourceAsWritten(agent, name) == Generic.EnsureResource(agent, name)
  {
    if Some(name) !in Generic.Resources(agent) {
      var c := Parsed("resource", name);
      Generic.AppendResourceReads(agent, c);
      EnsureChildPutFinds(agent, "resources", Append(Child(EnsureChild(agent, "resources")), c));
    }
    if name != "" {
      Generic.EnsureResourceAgrees(agent, name);
    }
  }

  /** Two agent views are equal exactly when they view the same element. */
  lemma {:induction false} AgentEquality(h: Mixins.Hierarchy, a: Element, b: Element)
    requires Mixins.WellFormed(h)
    ensures Mixins.PyEq(h, View(a), View(b)) <==> a == b
  {
    Mixins.NodeViewEq(h, "Agent", a, b);
  }
}
