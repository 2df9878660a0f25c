/**
 * The generator of test scenario A: a vulnerable Django release buried three levels deep
 * behind two in-house packages, next to ten healthy npm libraries hanging off the root.
 */
module ScenarioA {
  import opened Wrappers
  import opened Sbom
  import RegistryClient
  import Ingestion

  /** The reference of the application itself; it is not listed among the components. */
  const RootRef := "root-app"

  /** The PURL a generated component gets: PyPI when a group is given, npm otherwise. */
  function Purl(group: Option<string>, name: string, version: string): (p: string)
    ensures group.Some? && group.value != "" ==> p == "pkg:pypi/" + name + "@" + version
    ensures !(group.Some? && group.value != "") ==> p == "pkg:npm/" + name + "@" + version
  {
    var system := if group.Some? && group.value != "" then "pypi" else "npm";
    "pkg:" + system + "/" + name + "@" + version
  }

  /** `create_component`: bom-ref and PURL are the same string; no scope, no vulnerabilities. */
  function CreateComponent(group: Option<string>, name: string, version: string, kind: string := "library"): (c: RawComponent)
    ensures c.bomRef == c.purl == Some(Purl(group, name, version))
    ensures c.name == Some(name) && c.version == Some(version) && c.kind == Some(kind)
    ensures c.scope.None? && c.vulnerabilities == []
  {
    RawComponent(Some(kind), Some(name), Some(version), Some(Purl(group, name, version)),
      Some(Purl(group, name, version)), None, [])
  }

  /**
   * Every generated PURL parses into the ecosystem, the name and the version, so the metadata
   * lookup can query it, provided the version holds no '@'.
   */
  lemma GeneratedPurlParses(group: Option<string>, name: string, version: string)
    requires '@' !in version
    ensures RegistryClient.ParsePurl(Purl(group, name, version))
      == Some(RegistryClient.PurlParts(if group.Some? && group.value != "" then "pypi" else "npm", name, version))
  {
    var p := RegistryClient.PurlParts(if group.Some? && group.value != "" then "pypi" else "npm", name, version);
    assert Purl(group, name, version) == RegistryClient.PurlOf(p);
    RegistryClient.ParsePurlRoundTrip(p);
  }

  /** Ingesting a generated component keeps its PURL as both bom-ref and PURL. */
  lemma GeneratedComponentIngests(group: Option<string>, name: string, version: string)
    ensures Ingestion.ParseComponent(CreateComponent(group, name, version)).Some?
    ensures Ingestion.ParseComponent(CreateComponent(group, name, version)).value.bomRef == Purl(group, name, version)
    ensures Ingestion.ParseComponent(CreateComponent(group, name, version)).value.purl == Some(Purl(group, name, version))
    ensures Ingestion.ParseComponent(CreateComponent(group, name, version)).value.name == name
    ensures Ingestion.ParseComponent(CreateComponent(group, name, version)).value.version == version
  {
    var p := Purl(group, name, version);
    assert p[..4] == "pkg:";
  }

  /** The three-level chain: in-house analytics, a report generator, and Django 3.2.0 (PyPI). */
  const Analytics := CreateComponent(None, "internal-analytics", "1.0.0")
  const Reports := CreateComponent(None, "report-generator", "2.5.0")
  const Django := CreateComponent(Some("Django"), "django", "3.2.0")

  /** The healthy npm libraries, each a direct child of the root. */
  const SafeLibs: seq<(string, string)> := [
    ("express", "4.18.2"), ("lodash", "4.17.21"), ("axios", "1.6.0"), ("chalk", "4.1.2"),
    ("debug", "4.3.4"), ("commander", "9.4.1"), ("uuid", "9.0.0"), ("rxjs", "7.8.0"),
    ("tslib", "2.5.0"), ("zone.js", "0.13.0")]

  function SafeComponents(libs: seq<(string, string)>): (r: seq<RawComponent>)
    ensures |r| == |libs|
    ensures forall i :: 0 <= i < |libs| ==> r[i] == CreateComponent(None, libs[i].0, libs[i].1)
  {
    if |libs| == 0 then [] else [CreateComponent(None, libs[0].0, libs[0].1)] + SafeComponents(libs[1..])
  }

  /** The references of the given components, in order (absent ones skipped). */
  function Refs(cs: seq<RawComponent>): (r: seq<string>)
    ensures |r| <= |cs|
    ensures (forall c :: c in cs ==> c.bomRef.Some?) ==> |r| == |cs|
    ensures (forall c :: c in cs ==> c.bomRef.Some?) ==> forall i :: 0 <= i < |cs| ==> r[i] == cs[i].bomRef.value
  {
    if |cs| == 0 then []
    else
      assert forall c :: c in cs[1..] ==> c in cs;
      (if cs[0].bomRef.Some? then [cs[0].bomRef.value] else []) + Refs(cs[1..])
  }

  /** A leaf entry per healthy library. */
  function Leaves(refs: seq<string>): (r: seq<Dependency>)
    ensures |r| == |refs|
    ensures forall i :: 0 <= i < |refs| ==> r[i] == Dependency(Some(refs[i]), [])
  {
    if |refs| == 0 then [] else [Dependency(Some(refs[0]), [])] + Leaves(refs[1..])
  }

  /** A generated component has its PURL as a non-empty bom-ref and no scope. */
  predicate Generated(c: RawComponent) {
    c.bomRef.Some? && c.bomRef.value != "" && c.bomRef == c.purl && c.scope.None?
  }

  lemma CreatedIsGenerated(group: Option<string>, name: string, version: string)
    ensures Generated(CreateComponent(group, name, version))
  {
    assert |Purl(group, name, version)| > 0;
  }

  /**
   * `generate_scenario_A_real` over a chain of three components and a list of healthy libraries:
   * the components in creation order, and one dependency entry per key of the dependency map in
   * insertion order: the root, the chain, then the libraries.
   */
  function GenerateWith(top: RawComponent, mid: RawComponent, deep: RawComponent,
                        libs: seq<(string, string)>): (doc: SbomDoc)
    requires Generated(top) && Generated(mid) && Generated(deep)
    ensures doc.components.Some? && doc.dependencies.Some?
    ensures |doc.components.value| == 3 + |libs| && |doc.dependencies.value| == 4 + |libs|
    ensures doc.components.value[..3] == [top, mid, deep]
    ensures forall i :: 0 <= i < |libs| ==>
      doc.components.value[3 + i] == CreateComponent(None, libs[i].0, libs[i].1)
    ensures forall c :: c in doc.components.value ==> Generated(c)
    ensures doc.dependencies.value[0] == Dependency(Some(RootRef), [top.bomRef.value] + Refs(doc.components.value[3..]))
    ensures doc.dependencies.value[1] == Dependency(top.bomRef, [mid.bomRef.value])
    ensures doc.dependencies.value[2] == Dependency(mid.bomRef, [deep.bomRef.value])
    ensures doc.dependencies.value[3] == Dependency(deep.bomRef, [])
    ensures forall i :: 4 <= i < |doc.dependencies.value| ==>
      doc.dependencies.value[i] == Dependency(doc.components.value[i - 1].bomRef, [])
  {
    var libs' := SafeComponents(libs);
    var fixed := [top, mid, deep];
    var cs := fixed + libs';
    AllGenerated(fixed, libs);
    var libRefs := Refs(libs');
    var root := Dependency(Some(RootRef), [top.bomRef.value] + libRefs);
    var chain := [
      Dependency(top.bomRef, [mid.bomRef.value]),
      Dependency(mid.bomRef, [deep.bomRef.value]),
      Dependency(deep.bomRef, [])];
    var deps := [root] + chain + Leaves(libRefs);
    assert cs[..3] == fixed && cs[3..] == libs';
    SbomDoc(Some(cs), Some(deps))
  }

  /** Generated components followed by the generated libraries are all generated. */
  lemma AllGenerated(fixed: seq<RawComponent>, libs: seq<(string, string)>)
    requires forall c :: c in fixed ==> Generated(c)
    ensures forall c :: c in fixed + SafeComponents(libs) ==> Generated(c)
  {
    var libs' := SafeComponents(libs);
    forall c | c in fixed + libs' ensures Generated(c) {
      if c !in fixed {
        var i :| 0 <= i < |libs'| && libs'[i] == c;
        CreatedIsGenerated(None, libs[i].0, libs[i].1);
      }
    }
  }

  /** The chain's three components are generated like the libraries. */
  lemma FixedGenerated()
    ensures Generated(Analytics) && Generated(Reports) && Generated(Django)
  {
    CreatedIsGenerated(None, "internal-analytics", "1.0.0");
    CreatedIsGenerated(None, "report-generator", "2.5.0");
    CreatedIsGenerated(Some("Django"), "django", "3.2.0");
  }

  /** The scenario as generated. */
  function Generate(): SbomDoc {
    FixedGenerated();
    GenerateWith(Analytics, Reports, Django, SafeLibs)
  }

  /**
   * Thirteen components and fourteen dependency entries; the root depends on the chain's head
   * and the ten libraries; ingestion keeps every component.
   */
  lemma ScenarioShape()
    ensures |Generate().components.value| == 13 && |Generate().dependencies.value| == 14
    ensures |Generate().dependencies.value[0].dependsOn| == 11
    ensures Ingestion.CountWithRef(Generate().components.value) == 13
  {
    AllHaveRefs(Generate().components.value);
  }

  lemma {:induction false} AllHaveRefs(cs: seq<RawComponent>)
    requires forall c :: c in cs ==> Generated(c)
    ensures Ingestion.CountWithRef(cs) == |cs|
    decreases |cs|
  {
    if |cs| > 0 {
      assert cs[0] in cs;
      assert forall c :: c in cs[1..] ==> c in cs;
      AllHaveRefs(cs[1..]);
    }
  }
}
