/** `ArtifactNew`: the artifact codec whose element always carries a `type` attribute. */
module ArtifactsNew {
  import opened Wrappers
  import opened Xml

  datatype ArtifactNew = ArtifactNew(src: string, dest: Option<string>, artifactType: string)

  /** `ArtifactNew.get_build_artifact(src, dest)` */
  function BuildArtifact(src: string, dest: Option<string>): (r: ArtifactNew)
    ensures r.artifactType == "build" && r.src == src && r.dest == dest
  {
    ArtifactNew(src, dest, "build")
  }

  /** `ArtifactNew.get_test_artifact(src, dest)` */
  function TestArtifact(src: string, dest: Option<string>): (r: ArtifactNew)
    ensures r.artifactType == "test" && r.src == src && r.dest == dest
  {
    ArtifactNew(src, dest, "test")
  }

  /** `constructor`: names the factory for build and test and raises for any other type. */
  function Constructor(a: ArtifactNew): (r: Result<string>)
    ensures r.Ok? <==> a.artifactType in {"build", "test"}
    ensures r == Ok("BuildArtifact") <==> a.artifactType == "build"
    ensures r == Ok("TestArtifact") <==> a.artifactType == "test"
  {
    if a.artifactType == "build" then Ok("BuildArtifact")
    else if a.artifactType == "test" then Ok("TestArtifact")
    else Err("Unknown artifact type " + a.artifactType)
  }

  /** The element `append_to` adds: tag `artifact`, always a `type`, and `dest` only when set. */
  function Encode(a: ArtifactNew): (r: Element)
    ensures r.tag == "artifact" && r.children == [] && r.text.None?
    ensures "src" in r.attrs && r.attrs["src"] == a.src
    ensures "type" in r.attrs && r.attrs["type"] == a.artifactType
    ensures "dest" in r.attrs <==> a.dest.Some?
    ensures a.dest.Some? ==> r.attrs["dest"] == a.dest.value
  {
    var attrs := map["src" := a.src, "type" := a.artifactType];
    Element("artifact", if a.dest.Some? then attrs["dest" := a.dest.value] else attrs, None, [])
  }

  /** `ArtifactNew.get_artifact_for(element)`: the type defaults to build; a missing `src` raises. */
  function GetArtifactFor(e: Element): (r: Result<ArtifactNew>)
    ensures r.Ok? <==> "src" in e.attrs
    ensures r.Ok? ==> r.value.src == e.attrs["src"]
    ensures r.Ok? ==> r.value.artifactType == (if "type" in e.attrs then e.attrs["type"] else "build")
    ensures r.Ok? ==> (r.value.dest.Some? <==> "dest" in e.attrs) && (r.value.dest.Some? ==> r.value.dest.value == e.attrs["dest"])
  {
    if "src" !in e.attrs then Err("KeyError: src")
    else Ok(ArtifactNew(e.attrs["src"], if "dest" in e.attrs then Some(e.attrs["dest"]) else None,
                        if "type" in e.attrs then e.attrs["type"] else "build"))
  }

  /** Every `ArtifactNew`, whatever its type, comes back equal. */
  lemma ArtifactNewRoundTrip(a: ArtifactNew)
    ensures GetArtifactFor(Encode(a)) == Ok(a)
  {
  }
}
