/**
 * The CycloneDX-like JSON document the ingestion step reads and the scenario generators write,
 * reduced to the keys the code looks at. A key that is absent is `None`.
 */
module Sbom {
  import opened Wrappers

  /** An entry of a vulnerability's `ratings` list. */
  datatype Rating = Rating(score: Option<real>, vector: Option<string>)

  /** An entry of a component's embedded `vulnerabilities` list. */
  datatype RawVulnerability = RawVulnerability(id: Option<string>, ratings: seq<Rating>, description: Option<string>)

  /** An entry of the `components` list; `kind` is the JSON `type` key. */
  datatype RawComponent = RawComponent(
    kind: Option<string>,
    name: Option<string>,
    version: Option<string>,
    bomRef: Option<string>,
    purl: Option<string>,
    scope: Option<string>,
    vulnerabilities: seq<RawVulnerability>)

  /** An entry of the `dependencies` list: a reference and the references it depends on (an absent list is empty). */
  datatype Dependency = Dependency(ref: Option<string>, dependsOn: seq<string>)

  /** The document: its `components` and `dependencies` lists, either of which may be absent. */
  datatype SbomDoc = SbomDoc(components: Option<seq<RawComponent>>, dependencies: Option<seq<Dependency>>)
}
