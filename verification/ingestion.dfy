/**
 * The ingestion service: reading the SBOM's components and their embedded vulnerabilities,
 * merging in what the vulnerability lookup finds, and scoring maintenance risk from registry
 * metadata. The lookups are the OSV and deps.dev clients with their endpoints passed in.
 */
module Ingestion {
  import opened Wrappers
  import opened Strings
  import opened Entities
  import opened Exceptions
  import opened Sbom
  import OsvClient
  import RegistryClient

  // ---------------------------------------------------------------- components

  /** `bom-ref`, else `purl`, else `name`, taking the first truthy one. */
  function BomRefOf(rc: RawComponent): (r: Option<string>)
    ensures r.Some? ==> Truthy(r.value)
    ensures r.None? <==> !TruthyOpt(rc.bomRef) && !TruthyOpt(rc.purl) && !TruthyOpt(rc.name)
    ensures TruthyOpt(rc.bomRef) ==> r == rc.bomRef
    ensures !TruthyOpt(rc.bomRef) && TruthyOpt(rc.purl) ==> r == rc.purl
    ensures !TruthyOpt(rc.bomRef) && !TruthyOpt(rc.purl) && TruthyOpt(rc.name) ==> r == rc.name
  {
    if TruthyOpt(rc.bomRef) then rc.bomRef
    else if TruthyOpt(rc.purl) then rc.purl
    else if TruthyOpt(rc.name) then rc.name
    else None
  }

  /**
   * A vulnerability the SBOM already lists: the first rating gives score and vector (0 and ""
   * without ratings or without those keys), severity is the score over ten.
   */
  function EmbeddedVulnerability(rv: RawVulnerability, bomRef: string, name: string): (v: Vulnerability)
    ensures v.id == rv.id.GetOr("UNKNOWN")
    ensures v.componentRef == bomRef && v.componentName == name
    ensures |rv.ratings| == 0 ==> v.cvssScore == 0.0 && v.cvssVector == ""
    ensures |rv.ratings| > 0 ==> v.cvssScore == rv.ratings[0].score.GetOr(0.0)
    ensures |rv.ratings| > 0 ==> v.cvssVector == rv.ratings[0].vector.GetOr("")
    ensures v.severity == v.cvssScore / 10.0
    ensures v.description == rv.description.GetOr("No description")
    ensures v.tcs == 0.0 && v.epss == 0.0 && !v.kev && v.hdfmScore == 0.0 && v.priority == Low
  {
    var score := if |rv.ratings| > 0 then rv.ratings[0].score.GetOr(0.0) else 0.0;
    var vector := if |rv.ratings| > 0 then rv.ratings[0].vector.GetOr("") else "";
    NewVulnerability(rv.id.GetOr("UNKNOWN"), bomRef, name, Number(score), vector,
      rv.description.GetOr("No description"), Number(score / 10.0))
  }

  function EmbeddedVulnerabilities(rvs: seq<RawVulnerability>, bomRef: string, name: string): (r: seq<Vulnerability>)
    ensures |r| == |rvs|
    ensures forall i :: 0 <= i < |rvs| ==> r[i] == EmbeddedVulnerability(rvs[i], bomRef, name)
  {
    if |rvs| == 0 then [] else [EmbeddedVulnerability(rvs[0], bomRef, name)] + EmbeddedVulnerabilities(rvs[1..], bomRef, name)
  }

  /** Every vulnerability of the component names the component by its bom-ref. */
  predicate OwnsItsVulnerabilities(c: Component) {
    forall v :: v in c.vulnerabilities ==> v.componentRef == c.bomRef
  }

  /**
   * One entry of `components`: skipped without a bom-ref; name and version default to "Unknown"
   * only when absent; the PURL is kept as given; the embedded vulnerabilities are attached.
   */
  function ParseComponent(rc: RawComponent): (r: Option<Component>)
    ensures r.None? <==> BomRefOf(rc).None?
    ensures r.Some? ==> r.value.bomRef == BomRefOf(rc).value && r.value.purl == rc.purl
    ensures r.Some? ==> r.value.name == rc.name.GetOr("Unknown") && r.value.version == rc.version.GetOr("Unknown")
    ensures r.Some? ==> |r.value.vulnerabilities| == |rc.vulnerabilities|
    ensures r.Some? ==> forall i :: 0 <= i < |rc.vulnerabilities| ==>
      r.value.vulnerabilities[i].id == rc.vulnerabilities[i].id.GetOr("UNKNOWN")
    ensures r.Some? ==> OwnsItsVulnerabilities(r.value)
    ensures r.Some? ==> r.value.scope.None? && r.value.maintenanceRisk == 0.0 && !r.value.isDeprecated
  {
    match BomRefOf(rc)
    case None => None
    case Some(ref) =>
      var name := rc.name.GetOr("Unknown");
      var c := NewComponent(ref, name, rc.version.GetOr("Unknown"), rc.purl);
      Some(c.(vulnerabilities := EmbeddedVulnerabilities(rc.vulnerabilities, ref, name)))
  }

  /** The number of entries that have a bom-ref. */
  function CountWithRef(rcs: seq<RawComponent>): nat {
    if |rcs| == 0 then 0 else (if BomRefOf(rcs[0]).Some? then 1 else 0) + CountWithRef(rcs[1..])
  }

  /**
   * All entries that have a bom-ref, in document order: the entry at `j` lands at the position
   * given by the number of entries with a bom-ref before it.
   */
  function ParseComponents(rcs: seq<RawComponent>): (r: seq<Component>)
    ensures |r| == CountWithRef(rcs) <= |rcs|
    ensures forall c :: c in r ==> Truthy(c.bomRef) && OwnsItsVulnerabilities(c) && c.scope.None? && c.maintenanceRisk == 0.0
    ensures forall j :: 0 <= j < |rcs| && BomRefOf(rcs[j]).Some? ==>
      CountWithRef(rcs[..j]) < |r| && r[CountWithRef(rcs[..j])] == ParseComponent(rcs[j]).value
  {
    if |rcs| == 0 then []
    else
      var rest := ParseComponents(rcs[1..]);
      var r := match ParseComponent(rcs[0])
        case None => rest
        case Some(c) => [c] + rest;
      forall j | 0 <= j < |rcs| && BomRefOf(rcs[j]).Some?
        ensures CountWithRef(rcs[..j]) < |r| && r[CountWithRef(rcs[..j])] == ParseComponent(rcs[j]).value
      {
        if j > 0 {
          assert rcs[..j][1..] == rcs[1..][..j - 1];
          assert rcs[j] == rcs[1..][j - 1];
        }
      }
      r
  }

  /** Parsing a document split in two parses each part and concatenates, in order. */
  lemma {:induction false} ParseComponentsAppend(a: seq<RawComponent>, b: seq<RawComponent>)
    ensures ParseComponents(a + b) == ParseComponents(a) + ParseComponents(b)
    decreases |a|
  {
    if |a| > 0 {
      assert (a + b)[1..] == a[1..] + b;
      ParseComponentsAppend(a[1..], b);
    } else {
      assert a + b == b;
    }
  }

  /** A single entry parses to its component, or to nothing when it has no bom-ref. */
  lemma ParseComponentsSingle(rc: RawComponent)
    ensures ParseComponents([rc]) == if BomRefOf(rc).Some? then [ParseComponent(rc).value] else []
  {
    assert [rc][1..] == [];
  }

  // ---------------------------------------------------------------- merging lookup results

  function Ids(vs: seq<Vulnerability>): set<string> {
    set v | v in vs :: v.id
  }

  /** The found vulnerabilities whose id is not in `ids`, in order. */
  function Fresh(found: seq<Vulnerability>, ids: set<string>): (r: seq<Vulnerability>)
    ensures forall v :: v in r <==> v in found && v.id !in ids
    ensures |r| <= |found|
  {
    if |found| == 0 then []
    else if found[0].id in ids then Fresh(found[1..], ids)
    else [found[0]] + Fresh(found[1..], ids)
  }

  /**
   * Only vulnerabilities the SBOM does not already list are added, judged against the ids
   * present before the merge: the existing list stays in front, untouched.
   */
  function MergeFound(existing: seq<Vulnerability>, found: seq<Vulnerability>): (r: seq<Vulnerability>)
    ensures |existing| <= |r| && r[..|existing|] == existing
    ensures forall v :: v in r[|existing|..] <==> v in found && v.id !in Ids(existing)
  {
    var r := existing + Fresh(found, Ids(existing));
    assert r[|existing|..] == Fresh(found, Ids(existing));
    r
  }

  /** Merging never takes in a vulnerability whose id the component already had. */
  lemma MergeAddsOnlyNewIds(existing: seq<Vulnerability>, found: seq<Vulnerability>)
    ensures forall v :: v in MergeFound(existing, found) ==> v in existing || (v in found && v.id !in Ids(existing))
    ensures forall v :: v in found && v.id in Ids(existing) ==> v !in MergeFound(existing, found) || v in existing
  {
    var r := MergeFound(existing, found);
    assert r == r[..|existing|] + r[|existing|..];
  }

  /** Merges the lookup's results into the components they are keyed by. */
  function MergeResults(cs: seq<Component>, results: map<string, seq<Vulnerability>>): (r: seq<Component>)
    ensures |r| == |cs|
    ensures forall i :: 0 <= i < |cs| ==> r[i].(vulnerabilities := cs[i].vulnerabilities) == cs[i]
    ensures forall i :: 0 <= i < |cs| && cs[i].bomRef !in results ==> r[i] == cs[i]
    ensures forall i :: 0 <= i < |cs| && cs[i].bomRef in results ==>
      r[i].vulnerabilities == MergeFound(cs[i].vulnerabilities, results[cs[i].bomRef])
  {
    seq(|cs|, i requires 0 <= i < |cs| =>
      if cs[i].bomRef in results
      then cs[i].(vulnerabilities := MergeFound(cs[i].vulnerabilities, results[cs[i].bomRef]))
      else cs[i])
  }

  /** When every result is about the component under its key, merging keeps components owning their vulnerabilities. */
  lemma MergeKeepsOwnership(cs: seq<Component>, results: map<string, seq<Vulnerability>>)
    requires forall c :: c in cs ==> OwnsItsVulnerabilities(c)
    requires OsvClient.Attributed(results)
    ensures forall c :: c in MergeResults(cs, results) ==> OwnsItsVulnerabilities(c)
  {
    var r := MergeResults(cs, results);
    forall i | 0 <= i < |r| ensures OwnsItsVulnerabilities(r[i]) {
      assert cs[i] in cs;
      if cs[i].bomRef in results {
        var m := r[i].vulnerabilities;
        var n := |cs[i].vulnerabilities|;
        forall v | v in m ensures v.componentRef == r[i].bomRef {
          assert m == m[..n] + m[n..];
          if v in m[n..] {
            assert v in results[cs[i].bomRef];
          }
        }
      }
    }
  }

  /** The old record format of the legacy by-id lookup: `cvss_score` and `cvss_vector`, if present. */
  datatype LegacyRecord = LegacyRecord(cvssScore: Option<real>, cvssVector: Option<string>)

  /**
   * The legacy path: a CVE with score 0 takes score and vector from the lookup's answer (0 and ""
   * for absent keys); severity is not recomputed. `None` stands for no answer or an empty one.
   */
  function LegacyRefresh(v: Vulnerability, lookup: string -> Option<LegacyRecord>): (r: Vulnerability)
    ensures r.(cvssScore := v.cvssScore, cvssVector := v.cvssVector) == v
    ensures v.cvssScore != 0.0 || !StartsWith(v.id, "CVE-") ==> r == v
    ensures v.cvssScore == 0.0 && StartsWith(v.id, "CVE-") && lookup(v.id).Some? ==>
      r.cvssScore == lookup(v.id).value.cvssScore.GetOr(0.0) && r.cvssVector == lookup(v.id).value.cvssVector.GetOr("")
  {
    if v.cvssScore == 0.0 && StartsWith(v.id, "CVE-") then
      match lookup(v.id)
      case None => v
      case Some(d) => v.(cvssScore := d.cvssScore.GetOr(0.0), cvssVector := d.cvssVector.GetOr(""))
    else v
  }

  function LegacyRefreshAll(cs: seq<Component>, lookup: string -> Option<LegacyRecord>): (r: seq<Component>)
    ensures |r| == |cs|
    ensures forall i :: 0 <= i < |cs| ==> r[i].(vulnerabilities := cs[i].vulnerabilities) == cs[i]
    ensures forall i :: 0 <= i < |cs| ==> |r[i].vulnerabilities| == |cs[i].vulnerabilities|
    ensures forall i, j :: 0 <= i < |cs| && 0 <= j < |cs[i].vulnerabilities| ==>
      r[i].vulnerabilities[j] == LegacyRefresh(cs[i].vulnerabilities[j], lookup)
  {
    seq(|cs|, i requires 0 <= i < |cs| =>
      cs[i].(vulnerabilities := seq(|cs[i].vulnerabilities|, j requires 0 <= j < |cs[i].vulnerabilities| =>
        LegacyRefresh(cs[i].vulnerabilities[j], lookup))))
  }

  /**
   * The vulnerability lookup the service is given: one with a PURL batch lookup (the OSV client,
   * with its two endpoints) or only a legacy by-id lookup.
   */
  datatype VulnLookup =
    | PurlBatch(respond: seq<string> -> Option<seq<seq<OsvClient.OsvRecord>>>, fetch: string -> Option<OsvClient.OsvRecord>)
    | LegacyById(lookup: string -> Option<LegacyRecord>)

  /** The component's own list with what the lookup found for its bom-ref merged in. */
  function Merged(c: Component, results: map<string, seq<Vulnerability>>): seq<Vulnerability> {
    if c.bomRef in results then MergeFound(c.vulnerabilities, results[c.bomRef]) else c.vulnerabilities
  }

  /**
   * Step 2 of `parse_sbom`: scanning the components with the lookup. With the PURL batch lookup,
   * every component gets what the lookup found for its bom-ref merged in; with the legacy lookup,
   * every listed vulnerability is refreshed in place. Nothing else about a component changes.
   */
  function Scan(cs: seq<Component>, lookup: VulnLookup, mode: OsvClient.Mode): (r: seq<Component>)
    requires forall c :: c in cs ==> OwnsItsVulnerabilities(c)
    ensures |r| == |cs|
    ensures forall i :: 0 <= i < |cs| ==> r[i].(vulnerabilities := cs[i].vulnerabilities) == cs[i]
    ensures forall c :: c in r ==> OwnsItsVulnerabilities(c)
    ensures lookup.PurlBatch? ==> forall i :: 0 <= i < |cs| ==>
      r[i].vulnerabilities == Merged(cs[i], OsvClient.BatchLookupByPurl(cs, lookup.respond, lookup.fetch, mode))
    ensures lookup.LegacyById? ==> forall i :: 0 <= i < |cs| ==> |r[i].vulnerabilities| == |cs[i].vulnerabilities|
    ensures lookup.LegacyById? ==> forall i, j :: 0 <= i < |cs| && 0 <= j < |cs[i].vulnerabilities| ==>
      r[i].vulnerabilities[j] == LegacyRefresh(cs[i].vulnerabilities[j], lookup.lookup)
  {
    match lookup
    case PurlBatch(respond, fetch) =>
      var results := OsvClient.BatchLookupByPurl(cs, respond, fetch, mode);
      MergeKeepsOwnership(cs, results);
      MergeResults(cs, results)
    case LegacyById(f) =>
      var r := LegacyRefreshAll(cs, f);
      assert forall i :: 0 <= i < |r| ==> OwnsItsVulnerabilities(r[i]) by {
        forall i | 0 <= i < |r| ensures OwnsItsVulnerabilities(r[i]) {
          assert cs[i] in cs;
          assert r[i].bomRef == cs[i].bomRef;
          forall v | v in r[i].vulnerabilities ensures v.componentRef == r[i].bomRef {
            var j :| 0 <= j < |r[i].vulnerabilities| && r[i].vulnerabilities[j] == v;
            var u := cs[i].vulnerabilities[j];
            assert u in cs[i].vulnerabilities && OwnsItsVulnerabilities(cs[i]);
            assert v == LegacyRefresh(u, f);
            assert LegacyRefresh(u, f).componentRef == u.componentRef;
          }
        }
      }
      r
  }

  // ---------------------------------------------------------------- maintenance risk

  /** The age bonus: 0.3 past three years, 0.1 past two, else nothing; nothing without a date. */
  function AgeRisk(published: Option<Published>): (r: real)
    ensures published.None? ==> r == 0.0
    ensures published.Some? && published.value.ageYears > 3.0 ==> r == 0.3
    ensures published.Some? && 2.0 < published.value.ageYears <= 3.0 ==> r == 0.1
    ensures published.Some? && published.value.ageYears <= 2.0 ==> r == 0.0
  {
    match published
    case None => 0.0
    case Some(p) => if p.ageYears > 3.0 then 0.3 else if p.ageYears > 2.0 then 0.1 else 0.0
  }

  /** Deprecation weighs 0.7, age up to 0.3, capped at 1; the cap never binds. */
  function MaintenanceRisk(m: RegistryClient.Metadata): (r: real)
    ensures r == (if m.isDeprecated then 0.7 else 0.0) + AgeRisk(m.publishedAt)
    ensures 0.0 <= r <= 1.0
    ensures m.isDeprecated ==> r >= 0.7
    ensures !m.isDeprecated ==> r <= 0.3
    ensures m.publishedAt.None? ==> r == (if m.isDeprecated then 0.7 else 0.0)
  {
    var risk := (if m.isDeprecated then 0.7 else 0.0) + AgeRisk(m.publishedAt);
    if risk < 1.0 then risk else 1.0
  }

  /** An older release never lowers the risk. */
  lemma MaintenanceRiskMonotoneInAge(dep: bool, p: Published, q: Published)
    requires p.ageYears <= q.ageYears
    ensures MaintenanceRisk(RegistryClient.Metadata(Some(p), dep)) <= MaintenanceRisk(RegistryClient.Metadata(Some(q), dep))
  {
  }

  /** The component carries the registry's metadata `m` and the risk score computed from it. */
  predicate CarriesMetadata(c: Component, m: RegistryClient.Metadata) {
    c.publishedAt == m.publishedAt && c.isDeprecated == m.isDeprecated && c.maintenanceRisk == MaintenanceRisk(m)
  }

  /** The component with its metadata fields put back to those of `c`. */
  function WithoutMetadataOf(r: Component, c: Component): Component {
    r.(publishedAt := c.publishedAt, isDeprecated := c.isDeprecated, maintenanceRisk := c.maintenanceRisk)
  }

  /** Copies the registry's answer onto a component that has one, with its risk score. */
  function ApplyMetadata(c: Component, meta: map<string, RegistryClient.Metadata>): (r: Component)
    ensures c.bomRef !in meta ==> r == c
    ensures c.bomRef in meta ==> CarriesMetadata(r, meta[c.bomRef]) && WithoutMetadataOf(r, c) == c
    ensures 0.0 <= c.maintenanceRisk <= 1.0 ==> 0.0 <= r.maintenanceRisk <= 1.0
  {
    if c.bomRef in meta then
      var m := meta[c.bomRef];
      c.(publishedAt := m.publishedAt, isDeprecated := m.isDeprecated, maintenanceRisk := MaintenanceRisk(m))
    else c
  }

  /** The deps.dev client the service is given: its endpoint and its timestamp parser. */
  datatype MetadataSource = MetadataSource(
    fetch: RegistryClient.PurlParts -> Option<RegistryClient.VersionInfo>,
    parseTime: string -> Option<Published>)

  // ---------------------------------------------------------------- parse_sbom

  /** The message text the call site passes when `components` is missing or empty. */
  const ComponentsRequired := "SBOM must contain components"

  /**
   * The error as the source raises it: the sentence lands in the `missing_field` slot, so the
   * message reads as if a field of that name were missing.
   */
  function MissingComponentsAsWritten(): (e: HdfmException)
    ensures e.errorCode == SbomCode && e.kind == InvalidSbom(Some(ComponentsRequired))
  {
    NewInvalidSbomException(Some(ComponentsRequired))
  }

  /** The error with the sentence as the reason, as the exception's signature intends. */
  function MissingComponents(): (e: HdfmException)
    ensures e.errorCode == SbomCode && e.kind == InvalidSbom(None)
    ensures e.message == SbomPrefix + ComponentsRequired
  {
    NewInvalidSbomException(None, ComponentsRequired)
  }

  /** As written, the message claims a missing field called "SBOM must contain components". */
  lemma MissingComponentsMessages()
    ensures MissingComponentsAsWritten().message
      == SbomPrefix + "Missing required field '" + ComponentsRequired + "'"
    ensures MissingComponents().message == SbomPrefix + ComponentsRequired
    ensures MissingComponentsAsWritten().message != MissingComponents().message
  {
    var a := MissingComponentsAsWritten().message;
    var b := MissingComponents().message;
    assert a[|SbomPrefix|] == 'M' && b[|SbomPrefix|] == 'S';
  }

  /** No component with this bom-ref has its metadata request answered. */
  predicate Unanswered(cs: seq<Component>, ref: string, fetch: RegistryClient.PurlParts -> Option<RegistryClient.VersionInfo>) {
    forall j :: 0 <= j < |cs| && cs[j].bomRef == ref ==> RegistryClient.Answer(cs[j], fetch).None?
  }

  /**
   * Step 3 of `parse_sbom`: every component takes the metadata of the last answered component
   * with its bom-ref, with the risk score computed from it; a component none of whose namesakes
   * was answered is left as it is. Only the metadata fields change.
   */
  function AttachMetadata(cs: seq<Component>, registry: MetadataSource): (r: seq<Component>)
    ensures |r| == |cs|
    ensures forall i :: 0 <= i < |cs| ==> WithoutMetadataOf(r[i], cs[i]) == cs[i]
    ensures forall i, j :: 0 <= i < |cs| && RegistryClient.LastAnswered(cs, j, RegistryClient.Answerer(registry.fetch)) && cs[j].bomRef == cs[i].bomRef ==>
      CarriesMetadata(r[i], RegistryClient.ReadVersionInfo(RegistryClient.Answer(cs[j], registry.fetch).value, registry.parseTime))
    ensures forall i :: 0 <= i < |cs| && Unanswered(cs, cs[i].bomRef, registry.fetch) ==> r[i] == cs[i]
    ensures forall i :: 0 <= i < |cs| && 0.0 <= cs[i].maintenanceRisk <= 1.0 ==> 0.0 <= r[i].maintenanceRisk <= 1.0
  {
    var meta := RegistryClient.GetMetadata(cs, registry.fetch, registry.parseTime);
    seq(|cs|, i requires 0 <= i < |cs| => ApplyMetadata(cs[i], meta))
  }

  /** What holds of every component `parse_sbom` returns. */
  predicate Ingested(c: Component) {
    Truthy(c.bomRef) && c.scope.None? && OwnsItsVulnerabilities(c) && 0.0 <= c.maintenanceRisk <= 1.0
  }

  /**
   * `parse_sbom`: rejects a document without components (with the message as written, or as the
   * exception's signature intends under `Corrected`); otherwise parses the components, scans
   * them with the lookup, attaches registry metadata, and returns them in document order with
   * the dependency list (empty when absent).
   */
  function ParseSbom(doc: SbomDoc, lookup: VulnLookup, registry: MetadataSource, mode: OsvClient.Mode)
    : (r: Result<(seq<Component>, seq<Dependency>), HdfmException>)
    ensures r.Err? <==> doc.components.None? || |doc.components.value| == 0
    ensures r.Err? && mode == OsvClient.AsWritten ==> r.error == MissingComponentsAsWritten()
    ensures r.Err? && mode == OsvClient.Corrected ==> r.error == MissingComponents()
    ensures r.Ok? ==> |r.value.0| == CountWithRef(doc.components.value)
    ensures r.Ok? ==> r.value.1 == doc.dependencies.GetOr([])
    ensures r.Ok? ==> forall c :: c in r.value.0 ==> Ingested(c)
    ensures r.Ok? ==> var parsed := ParseComponents(doc.components.value);
      forall i :: 0 <= i < |parsed| ==>
        WithoutMetadataOf(r.value.0[i], parsed[i]).(vulnerabilities := parsed[i].vulnerabilities) == parsed[i]
        && r.value.0[i].vulnerabilities == Scan(parsed, lookup, mode)[i].vulnerabilities
    ensures r.Ok? ==> var parsed := ParseComponents(doc.components.value);
      forall i, j :: 0 <= i < |parsed| && RegistryClient.LastAnswered(parsed, j, RegistryClient.Answerer(registry.fetch)) && parsed[j].bomRef == parsed[i].bomRef ==>
        CarriesMetadata(r.value.0[i],
          RegistryClient.ReadVersionInfo(RegistryClient.Answer(parsed[j], registry.fetch).value, registry.parseTime))
    ensures r.Ok? ==> var parsed := ParseComponents(doc.components.value);
      forall i :: 0 <= i < |parsed| && Unanswered(parsed, parsed[i].bomRef, registry.fetch) ==>
        r.value.0[i] == Scan(parsed, lookup, mode)[i]
  {
    if doc.components.None? || |doc.components.value| == 0 then
      Err(if mode == OsvClient.AsWritten then MissingComponentsAsWritten() else MissingComponents())
    else
      var parsed := ParseComponents(doc.components.value);
      var scanned := Scan(parsed, lookup, mode);
      var finished := AttachMetadata(scanned, registry);
      IngestedThroughout(parsed, scanned, finished);
      MetadataOfParsed(parsed, scanned, finished, registry);
      Ok((finished, doc.dependencies.GetOr([])))
  }

  /** Scanning changes no bom-ref or PURL, so the metadata lands as the parsed components' requests say. */
  lemma MetadataOfParsed(parsed: seq<Component>, scanned: seq<Component>, finished: seq<Component>, registry: MetadataSource)
    requires |scanned| == |parsed|
    requires forall i :: 0 <= i < |parsed| ==> scanned[i].(vulnerabilities := parsed[i].vulnerabilities) == parsed[i]
    requires finished == AttachMetadata(scanned, registry)
    ensures forall i, j :: 0 <= i < |parsed| && RegistryClient.LastAnswered(parsed, j, RegistryClient.Answerer(registry.fetch)) && parsed[j].bomRef == parsed[i].bomRef ==>
      CarriesMetadata(finished[i],
        RegistryClient.ReadVersionInfo(RegistryClient.Answer(parsed[j], registry.fetch).value, registry.parseTime))
    ensures forall i :: 0 <= i < |parsed| && Unanswered(parsed, parsed[i].bomRef, registry.fetch) ==> finished[i] == scanned[i]
  {
    assert RegistryClient.SameRequests(parsed, scanned) by {
      forall i | 0 <= i < |parsed| ensures parsed[i].bomRef == scanned[i].bomRef && parsed[i].purl == scanned[i].purl {
        assert scanned[i].(vulnerabilities := parsed[i].vulnerabilities) == parsed[i];
      }
    }
    RegistryClient.LastAnsweredOnlyReadsRequests(parsed, scanned, registry.fetch);
    forall i | 0 <= i < |parsed| && Unanswered(parsed, parsed[i].bomRef, registry.fetch)
      ensures Unanswered(scanned, scanned[i].bomRef, registry.fetch)
    {
    }
  }

  lemma IngestedThroughout(parsed: seq<Component>, scanned: seq<Component>, finished: seq<Component>)
    requires forall c :: c in parsed ==> Truthy(c.bomRef) && c.scope.None? && c.maintenanceRisk == 0.0
    requires |scanned| == |parsed| && forall c :: c in scanned ==> OwnsItsVulnerabilities(c)
    requires forall i :: 0 <= i < |parsed| ==> scanned[i].(vulnerabilities := parsed[i].vulnerabilities) == parsed[i]
    requires |finished| == |scanned|
    requires forall i :: 0 <= i < |scanned| ==>
      (finished[i].bomRef == scanned[i].bomRef && finished[i].scope == scanned[i].scope
        && finished[i].vulnerabilities == scanned[i].vulnerabilities)
    requires forall i :: 0 <= i < |scanned| && 0.0 <= scanned[i].maintenanceRisk <= 1.0 ==> 0.0 <= finished[i].maintenanceRisk <= 1.0
    ensures forall c :: c in finished ==> Ingested(c)
  {
    forall c | c in finished ensures Ingested(c) {
      var i :| 0 <= i < |finished| && finished[i] == c;
      assert parsed[i] in parsed && scanned[i] in scanned;
      assert scanned[i].bomRef == parsed[i].bomRef && scanned[i].scope == parsed[i].scope;
      assert scanned[i].maintenanceRisk == parsed[i].maintenanceRisk;
    }
  }
}
