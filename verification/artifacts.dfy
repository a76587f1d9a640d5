/** Fetch sources and job artifacts.

    A fetch source is a file or a directory and is written as the attribute pair
    `srcfile=…` or `srcdir=…`. An artifact has a source, an optional destination
    and a type. It is written in one of two schemas: before GoCD 18.3 the tag says
    the type (`artifact` for build, `test` otherwise); from 18.3 on the tag is
    always `artifact` and a `type` attribute carries the type.
 */
module Artifacts {
  import opened Wrappers
  import opened Xml

  datatype FetchSrc = FetchArtifactFile(srcValue: string) | FetchArtifactDir(srcValue: string)

  /** `as_xml_type_and_value` */
  function XmlTypeAndValue(src: FetchSrc): (r: (string, string))
    ensures r.1 == src.srcValue
    ensures r.0 == "srcfile" <==> src.FetchArtifactFile?
    ensures r.0 == "srcdir" <==> src.FetchArtifactDir?
  {
    match src
    case FetchArtifactFile(v) => ("srcfile", v)
    case FetchArtifactDir(v) => ("srcdir", v)
  }

  /** `fetch_artifact_src_from(element)`: `srcfile` wins over `srcdir`; with neither it raises. */
  function FetchArtifactSrcFrom(e: Element): (r: Result<FetchSrc>)
    ensures r.Err? <==> "srcfile" !in e.attrs && "srcdir" !in e.attrs
    ensures "srcfile" in e.attrs ==> r == Ok(FetchArtifactFile(e.attrs["srcfile"]))
    ensures "srcfile" !in e.attrs && "srcdir" in e.attrs ==> r == Ok(FetchArtifactDir(e.attrs["srcdir"]))
  {
    if "srcfile" in e.attrs then Ok(FetchArtifactFile(e.attrs["srcfile"]))
    else if "srcdir" in e.attrs then Ok(FetchArtifactDir(e.attrs["srcdir"]))
    else Err("Expected srcfile or srcdir")
  }

  /** Reading back the attribute pair a source writes gives the same source. */
  lemma FetchSrcRoundTrip(src: FetchSrc, attrs: map<string, string>)
    requires "srcfile" !in attrs && "srcdir" !in attrs
    ensures var (k, v) := XmlTypeAndValue(src);
      FetchArtifactSrcFrom(Element("fetchartifact", attrs[k := v], None, [])) == Ok(src)
  {
  }

  datatype Artifact = Artifact(src: string, dest: Option<string>, artifactType: string)

  /** `BuildArtifact(src, dest)` */
  function BuildArtifact(src: string, dest: Option<string>): (r: Artifact)
    ensures r.artifactType == "build" && r.src == src && r.dest == dest
  {
    Artifact(src, dest, "build")
  }

  /** `TestArtifact(src, dest)` */
  function TestArtifact(src: string, dest: Option<string>): (r: Artifact)
    ensures r.artifactType == "test" && r.src == src && r.dest == dest
  {
    Artifact(src, dest, "test")
  }

  /** `constructor`: the factory name for build and test; any other type raises. */
  function Constructor(a: Artifact): (r: Result<string>)
    ensures r.Ok? <==> a.artifactType in {"build", "test"}
    ensures r == Ok("BuildArtifact") <==> a.artifactType == "build"
    ensures r == Ok("TestArtifact") <==> a.artifactType == "test"
  {
    if a.artifactType == "build" then Ok("BuildArtifact")
    else if a.artifactType == "test" then Ok("TestArtifact")
    else Err("Unknown artifact type " + a.artifactType)
  }

  function WithDest(attrs: map<string, string>, dest: Option<string>): (r: map<string, string>)
    ensures "dest" in r <==> dest.Some? || "dest" in attrs
    ensures dest.Some? ==> r["dest"] == dest.value
    ensures forall k :: k in attrs && k != "dest" ==> k in r && r[k] == attrs[k]
    ensures forall k :: k in r && k != "dest" ==> k in attrs
  {
    if dest.Some? then attrs["dest" := dest.value] else attrs
  }

  /** The element `append_to` adds, in the 18.3-and-above schema or in the older one. */
  function Encode(a: Artifact, gocd18Point3AndAbove: bool): (r: Element)
    ensures gocd18Point3AndAbove ==> r.tag == "artifact" && "type" in r.attrs && r.attrs["type"] == a.artifactType
    ensures !gocd18Point3AndAbove ==> "type" !in r.attrs && (r.tag == "artifact" <==> a.artifactType == "build")
    ensures !gocd18Point3AndAbove && a.artifactType != "build" ==> r.tag == "test"
    ensures "src" in r.attrs && r.attrs["src"] == a.src
    ensures "dest" in r.attrs <==> a.dest.Some?
    ensures a.dest.Some? ==> r.attrs["dest"] == a.dest.value
    ensures r.children == [] && r.text.None?
  {
    if gocd18Point3AndAbove then
      Element("artifact", WithDest(map["src" := a.src, "type" := a.artifactType], a.dest), None, [])
    else
      var tag := if a.artifactType == "build" then "artifact" else "test";
      Element(tag, WithDest(map["src" := a.src], a.dest), None, [])
  }

  /** `artifact.append_to(element, gocd_18_3_and_above)` */
  function AppendTo(a: Artifact, parent: Element, gocd18Point3AndAbove: bool): (r: Element)
    ensures r.children == parent.children + [Encode(a, gocd18Point3AndAbove)]
  {
    Append(parent, Encode(a, gocd18Point3AndAbove))
  }

  /** `get_artifact_for(element)`: the `type` attribute when present, else the tag decides
      (`artifact` is build, anything else is test); a missing `src` raises. */
  function GetArtifactFor(e: Element): (r: Result<Artifact>)
    ensures r.Ok? <==> "src" in e.attrs
    ensures r.Ok? ==> r.value.src == e.attrs["src"]
    ensures r.Ok? ==> (r.value.dest.Some? <==> "dest" in e.attrs) && (r.value.dest.Some? ==> r.value.dest.value == e.attrs["dest"])
    ensures r.Ok? && "type" in e.attrs ==> r.value.artifactType == e.attrs["type"]
    ensures r.Ok? && "type" !in e.attrs ==> r.value.artifactType == (if e.tag == "artifact" then "build" else "test")
  {
    if "src" !in e.attrs then Err("KeyError: src")
    else
      var dest := if "dest" in e.attrs then Some(e.attrs["dest"]) else None;
      if "type" in e.attrs then Ok(Artifact(e.attrs["src"], dest, e.attrs["type"]))
      else Ok(Artifact(e.attrs["src"], dest, if e.tag == "artifact" then "build" else "test"))
  }

  /** Build and test artifacts come back equal from either schema. */
  lemma ArtifactRoundTrip(a: Artifact, gocd18Point3AndAbove: bool)
    requires a.artifactType in {"build", "test"}
    ensures GetArtifactFor(Encode(a, gocd18Point3AndAbove)) == Ok(a)
  {
  }

  /** The 18.3 schema keeps any type; the older one turns every type other than build into test. */
  lemma ArtifactTypeKeptOnlyByNewSchema(a: Artifact)
    ensures GetArtifactFor(Encode(a, true)) == Ok(a)
    ensures GetArtifactFor(Encode(a, false)) == Ok(a.(artifactType := if a.artifactType == "build" then "build" else "test"))
  {
  }
}
