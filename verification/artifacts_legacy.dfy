/** `ArtifactLegacy`: the artifact codec that stores the tag itself (`artifact` or `test`). */
module ArtifactsLegacy {
  import opened Wrappers
  import opened Xml

  datatype ArtifactLegacy = ArtifactLegacy(tag: string, src: string, dest: Option<string>)

  /** `ArtifactLegacy.get_build_artifact(src, dest)` */
  function BuildArtifact(src: string, dest: Option<string>): (r: ArtifactLegacy)
    ensures r.tag == "artifact" && r.src == src && r.dest == dest
  {
    ArtifactLegacy("artifact", src, dest)
  }

  /** `ArtifactLegacy.get_test_artifact(src, dest)` */
  function TestArtifact(src: string, dest: Option<string>): (r: ArtifactLegacy)
    ensures r.tag == "test" && r.src == src && r.dest == dest
  {
    ArtifactLegacy("test", src, dest)
  }

  /** `constructor`: names the factory for the tags `artifact` and `test` and raises for any other. */
  function Constructor(a: ArtifactLegacy): (r: Result<string>)
    ensures r.Ok? <==> a.tag in {"artifact", "test"}
    ensures r == Ok("BuildArtifact") <==> a.tag == "artifact"
    ensures r == Ok("TestArtifact") <==> a.tag == "test"
  {
    if a.tag == "artifact" then Ok("BuildArtifact")
    else if a.tag == "test" then Ok("TestArtifact")
    else Err("Unknown artifact tag " + a.tag)
  }

  /** The element `append_to` adds: the stored tag with `src`, and `dest` only when set. */
  function Encode(a: ArtifactLegacy): (r: Element)
    ensures r.tag == a.tag && r.children == [] && r.text.None?
    ensures "src" in r.attrs && r.attrs["src"] == a.src
    ensures "dest" in r.attrs <==> a.dest.Some?
    ensures a.dest.Some? ==> r.attrs["dest"] == a.dest.value
    ensures r.attrs.Keys <= {"src", "dest"}
  {
    var attrs := map["src" := a.src];
    Element(a.tag, if a.dest.Some? then attrs["dest" := a.dest.value] else attrs, None, [])
  }

  /** `ArtifactLegacy.get_artifact_for(element)`: the tag is kept verbatim; a missing `src` raises. */
  function GetArtifactFor(e: Element): (r: Result<ArtifactLegacy>)
    ensures r.Ok? <==> "src" in e.attrs
    ensures r.Ok? ==> r.value.tag == e.tag && r.value.src == e.attrs["src"]
    ensures r.Ok? ==> (r.value.dest.Some? <==> "dest" in e.attrs) && (r.value.dest.Some? ==> r.value.dest.value == e.attrs["dest"])
  {
    if "src" !in e.attrs then Err("KeyError: src")
    else Ok(ArtifactLegacy(e.tag, e.attrs["src"], if "dest" in e.attrs then Some(e.attrs["dest"]) else None))
  }

  /** Encoding then decoding is the identity, for any tag. */
  lemma ArtifactLegacyRoundTrip(a: ArtifactLegacy)
    ensures GetArtifactFor(Encode(a)) == Ok(a)
  {
  }
}
