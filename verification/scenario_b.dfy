/**
 * The generator of test scenario B: a vulnerable sandbox library reachable only through the
 * test runner (both marked scope "excluded"), a directly required HTTP client, and a healthy
 * web stack, all required.
 */
module ScenarioB {
  import opened Wrappers
  import opened Strings
  import opened Sbom
  import RegistryClient
  import Ingestion
  import GraphAnalyzer

  const RootRef := "root-app"

  /** The PURL: Maven under the group when one is given, PyPI otherwise. */
  function Purl(name: string, version: string, group: Option<string>): (p: string)
    ensures TruthyOpt(group) ==> p == "pkg:maven/" + group.value + "/" + name + "@" + version
    ensures !TruthyOpt(group) ==> p == "pkg:pypi/" + name + "@" + version
  {
    if TruthyOpt(group) then "pkg:maven/" + group.value + "/" + name + "@" + version
    else "pkg:pypi/" + name + "@" + version
  }

  /** The component name: "group.name" for Maven, the bare name otherwise. */
  function FullName(name: string, group: Option<string>): string {
    if TruthyOpt(group) then group.value + "." + name else name
  }

  /** `create_component`: bom-ref and PURL are the same string, and the scope is recorded. */
  function CreateComponent(name: string, version: string, scope: string := "required",
                           kind: string := "library", group: Option<string> := None): (c: RawComponent)
    ensures c.bomRef == c.purl == Some(Purl(name, version, group))
    ensures c.name == Some(FullName(name, group)) && c.version == Some(version)
    ensures c.scope == Some(scope) && c.kind == Some(kind) && c.vulnerabilities == []
  {
    RawComponent(Some(kind), Some(FullName(name, group)), Some(version), Some(Purl(name, version, group)),
      Some(Purl(name, version, group)), Some(scope), [])
  }

  /** PyPI PURLs parse back, provided the version holds no '@'. */
  lemma PypiPurlParses(name: string, version: string)
    requires '@' !in version
    ensures RegistryClient.ParsePurl(Purl(name, version, None))
      == Some(RegistryClient.PurlParts("pypi", name, version))
  {
    var p := RegistryClient.PurlParts("pypi", name, version);
    assert Purl(name, version, None) == RegistryClient.PurlOf(p);
    RegistryClient.ParsePurlRoundTrip(p);
  }

  /**
   * Maven PURLs parse with the group inside the name part ("group/name"), which differs from
   * the component's "group.name".
   */
  lemma MavenPurlParses(name: string, version: string, group: string)
    requires group != "" && '@' !in version
    ensures RegistryClient.ParsePurl(Purl(name, version, Some(group)))
      == Some(RegistryClient.PurlParts("maven", group + "/" + name, version))
  {
    var p := RegistryClient.PurlParts("maven", group + "/" + name, version);
    assert Purl(name, version, Some(group)) == RegistryClient.PurlOf(p);
    RegistryClient.ParsePurlRoundTrip(p);
  }

  const Mocha := CreateComponent("mocha", "10.2.0", "excluded")
  const Vm2 := CreateComponent("vm2", "3.9.17", "excluded")
  const Requests := CreateComponent("requests", "2.29.0", "required")

  /** The healthy production stack, each a direct child of the root. */
  const ProdStack: seq<(string, string)> := [
    ("flask", "2.3.2"), ("werkzeug", "2.3.6"), ("gunicorn", "20.1.0"), ("sqlalchemy", "2.0.15")]

  function StackComponents(stack: seq<(string, string)>): (r: seq<RawComponent>)
    ensures |r| == |stack|
    ensures forall i :: 0 <= i < |stack| ==> r[i] == CreateComponent(stack[i].0, stack[i].1, "required")
  {
    if |stack| == 0 then [] else [CreateComponent(stack[0].0, stack[0].1, "required")] + StackComponents(stack[1..])
  }

  function Refs(cs: seq<RawComponent>): (r: seq<string>)
    requires forall c :: c in cs ==> c.bomRef.Some?
    ensures |r| == |cs| && forall i :: 0 <= i < |cs| ==> r[i] == cs[i].bomRef.value
  {
    if |cs| == 0 then []
    else
      assert cs[0] in cs && forall c :: c in cs[1..] ==> c in cs;
      [cs[0].bomRef.value] + Refs(cs[1..])
  }

  function Leaves(refs: seq<string>): (r: seq<Dependency>)
    ensures |r| == |refs|
    ensures forall i :: 0 <= i < |refs| ==> r[i] == Dependency(Some(refs[i]), [])
  {
    if |refs| == 0 then [] else [Dependency(Some(refs[0]), [])] + Leaves(refs[1..])
  }

  /**
   * `generate_scenario_B` over a production stack: the components in creation order, and one
   * dependency entry per key of the dependency map in insertion order. The root depends on
   * mocha, requests and every stack library; mocha depends on vm2; everything else is a leaf.
   */
  function GenerateWith(stack: seq<(string, string)>): (doc: SbomDoc)
    ensures doc.components.Some? && doc.dependencies.Some?
    ensures |doc.components.value| == 3 + |stack| && |doc.dependencies.value| == 4 + |stack|
    ensures doc.components.value[..3] == [Mocha, Vm2, Requests]
    ensures forall i :: 0 <= i < |stack| ==>
      doc.components.value[3 + i] == CreateComponent(stack[i].0, stack[i].1, "required")
    ensures forall c :: c in doc.components.value ==> c.bomRef.Some? && c.bomRef == c.purl
    ensures doc.dependencies.value[0]
      == Dependency(Some(RootRef), [Mocha.bomRef.value, Requests.bomRef.value] + Refs(doc.components.value[3..]))
    ensures doc.dependencies.value[1] == Dependency(Mocha.bomRef, [Vm2.bomRef.value])
    ensures doc.dependencies.value[2] == Dependency(Vm2.bomRef, [])
    ensures doc.dependencies.value[3] == Dependency(Requests.bomRef, [])
    ensures forall i :: 4 <= i < |doc.dependencies.value| ==>
      doc.dependencies.value[i] == Dependency(doc.components.value[i - 1].bomRef, [])
  {
    var prod := StackComponents(stack);
    var fixed := [Mocha, Vm2, Requests];
    FixedHaveRefs();
    var cs := fixed + prod;
    assert forall c :: c in cs ==> c.bomRef.Some? && c.bomRef == c.purl by {
      forall c | c in cs ensures c.bomRef.Some? && c.bomRef == c.purl {
        if c !in prod {
          assert c in fixed;
        }
      }
    }
    var prodRefs := Refs(prod);
    var root := Dependency(Some(RootRef), [Mocha.bomRef.value, Requests.bomRef.value] + prodRefs);
    var rest := [
      Dependency(Mocha.bomRef, [Vm2.bomRef.value]),
      Dependency(Vm2.bomRef, []),
      Dependency(Requests.bomRef, [])];
    assert cs[..3] == fixed && cs[3..] == prod;
    SbomDoc(Some(cs), Some([root] + rest + Leaves(prodRefs)))
  }

  /** The three fixed components carry their PURL as bom-ref. */
  lemma FixedHaveRefs()
    ensures forall c :: c in [Mocha, Vm2, Requests] ==> c.bomRef.Some? && c.bomRef == c.purl
  {
  }

  function Generate(): SbomDoc {
    GenerateWith(ProdStack)
  }

  /** Seven components, eight dependency entries, six direct children of the root. */
  lemma ScenarioShape()
    ensures |Generate().components.value| == 7 && |Generate().dependencies.value| == 8
    ensures |Generate().dependencies.value[0].dependsOn| == 6
  {
    assert |ProdStack| == 4;
    assert Generate() == GenerateWith(ProdStack);
  }

  /**
   * The scope the generator writes does not survive ingestion, so the sandbox library in test
   * scope and the required HTTP client get the same scope priority in the TCS.
   */
  lemma ExcludedScopeIsLost()
    ensures Vm2.scope == Some("excluded") && Requests.scope == Some("required")
    ensures Ingestion.ParseComponent(Vm2).Some? && Ingestion.ParseComponent(Requests).Some?
    ensures Ingestion.ParseComponent(Vm2).value.scope.None?
    ensures GraphAnalyzer.ScopePriority(Ingestion.ParseComponent(Vm2).value.scope)
      == GraphAnalyzer.ScopePriority(Ingestion.ParseComponent(Requests).value.scope)
  {
    assert Vm2.bomRef.Some? && |Vm2.bomRef.value| > 0;
    assert Requests.bomRef.Some? && |Requests.bomRef.value| > 0;
  }
}
