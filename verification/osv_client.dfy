/**
 * The OSV.dev client: the vector-to-score heuristic, the grouping of OSV records that describe
 * the same issue, the choice of one representative per group (CVE before GHSA before anything
 * else), the conversion of a record into a `Vulnerability`, PURL construction, and the batch
 * lookup with the two HTTP endpoints passed in as functions.
 */
module OsvClient {
  import opened Wrappers
  import opened Strings
  import opened Numerics
  import opened Entities

  /** One entry of an OSV record's `severity` list; absent keys read as "". */
  datatype SeverityEntry = SeverityEntry(kind: string, score: string)

  /**
   * An OSV record as JSON. `id` is `None` when the key is absent; `aliases`, `summary`, `details`
   * and `database_specific.severity` default to empty; `severity` is `None` when the key is absent.
   */
  datatype OsvRecord = OsvRecord(
    id: Option<string>,
    aliases: seq<string>,
    severity: Option<seq<SeverityEntry>>,
    dbSeverity: string,
    summary: string,
    details: string)

  // ---------------------------------------------------------------- vector heuristic

  /** The attack-vector bonus: the first of network, adjacent, local found in the vector. */
  function AttackVectorBonus(v: string): (r: real)
    ensures r == 0.0 || r == 1.0 || r == 2.0 || r == 3.0
    ensures r == 3.0 <==> Contains(v, "AV:N")
    ensures r == 2.0 <==> !Contains(v, "AV:N") && Contains(v, "AV:A")
    ensures r == 1.0 <==> !Contains(v, "AV:N") && !Contains(v, "AV:A") && Contains(v, "AV:L")
  {
    if Contains(v, "AV:N") then 3.0
    else if Contains(v, "AV:A") then 2.0
    else if Contains(v, "AV:L") then 1.0
    else 0.0
  }

  /** One point per substring test that holds. */
  function Bonus(v: string, marker: string, points: real): real {
    if Contains(v, marker) then points else 0.0
  }

  /** The raw sum of bonuses before the cap of 10. */
  function RawCvss(v: string): real {
    AttackVectorBonus(v) + Bonus(v, "AC:L", 2.0) + Bonus(v, "PR:N", 2.0)
      + Bonus(v, "C:H", 1.0) + Bonus(v, "I:H", 1.0) + Bonus(v, "A:H", 1.0)
  }

  /**
   * A rough 0-10 score from a CVSS vector by substring tests, capped at 10; the empty vector
   * scores 0.
   */
  function ParseCvssScore(v: string): (r: real)
    ensures 0.0 <= r <= 10.0
    ensures v == "" ==> r == 0.0
    ensures v != "" ==> r == MinReal(RawCvss(v), 10.0)
  {
    if v == "" then 0.0 else MinReal(RawCvss(v), 10.0)
  }

  /** The bonuses add up to at most 3 + 2 + 2 + 1 + 1 + 1 = 10, so the cap never changes a score. */
  lemma CvssCapNeverBinds(v: string)
    ensures RawCvss(v) <= 10.0
    ensures v != "" ==> ParseCvssScore(v) == RawCvss(v)
  {
  }

  /** A network-reachable, low-complexity, no-privilege vector scores at least 7. */
  lemma NetworkLowComplexityNoPrivilege(v: string)
    requires Contains(v, "AV:N") && Contains(v, "AC:L") && Contains(v, "PR:N")
    ensures ParseCvssScore(v) >= 7.0
  {
  }

  /**
   * The confidentiality test is a plain substring test, so "AC:H" (high attack complexity)
   * also reads as "C:H": every vector with high attack complexity earns the confidentiality
   * point, whatever its confidentiality impact.
   */
  lemma HighComplexityReadsAsConfidentialityHigh(v: string)
    requires Contains(v, "AC:H")
    ensures Contains(v, "C:H")
    ensures ParseCvssScore(v) >= 1.0
  {
    ContainsAt("AC:H", "C:H", 1);
    ContainsTransitive(v, "AC:H", "C:H");
  }

  // ---------------------------------------------------------------- representative choice

  /** The preference class of a record's id (absent reads as ""): CVE 0, GHSA 1, anything else 2. */
  function Class(rec: OsvRecord): (c: nat)
    ensures c <= 2
    ensures c == 0 <==> StartsWith(rec.id.GetOr(""), "CVE-")
  {
    var id := rec.id.GetOr("");
    if StartsWith(id, "CVE-") then 0 else if StartsWith(id, "GHSA-") then 1 else 2
  }

  /** The position of the first record of class `c`. */
  function FirstOfClass(g: seq<OsvRecord>, c: nat): (r: Option<nat>)
    ensures r.Some? ==> r.value < |g| && Class(g[r.value]) == c
    ensures r.Some? ==> forall j :: 0 <= j < r.value ==> Class(g[j]) != c
    ensures r.None? ==> forall j :: 0 <= j < |g| ==> Class(g[j]) != c
  {
    if |g| == 0 then None
    else if Class(g[0]) == c then Some(0)
    else
      match FirstOfClass(g[1..], c)
      case None => None
      case Some(i) => Some(i + 1)
  }

  /**
   * The representative of a group: the first CVE, else the first GHSA, else the first record,
   * and nothing for an empty group. Stated without reference to the scan: the chosen record has
   * the best class in the group and every record before it has a worse class.
   */
  function PickBestIndex(g: seq<OsvRecord>): (r: Option<nat>)
    ensures r.None? <==> |g| == 0
    ensures r.Some? ==> r.value < |g|
    ensures r.Some? ==> forall j :: 0 <= j < |g| ==> Class(g[r.value]) <= Class(g[j])
    ensures r.Some? ==> forall j :: 0 <= j < r.value ==> Class(g[r.value]) < Class(g[j])
  {
    match FirstOfClass(g, 0)
    case Some(i) => Some(i)
    case None =>
      match FirstOfClass(g, 1)
      case Some(i) => Some(i)
      case None => if |g| == 0 then None else Some(0)
  }

  /** The characterisation above picks one position only. */
  lemma PickBestIsDetermined(g: seq<OsvRecord>, k: nat)
    requires k < |g|
    requires forall j :: 0 <= j < |g| ==> Class(g[k]) <= Class(g[j])
    requires forall j :: 0 <= j < k ==> Class(g[k]) < Class(g[j])
    ensures PickBestIndex(g) == Some(k)
  {
    var i := PickBestIndex(g).value;
    assert Class(g[k]) <= Class(g[i]) && Class(g[i]) <= Class(g[k]);
  }

  /**
   * `_pick_best_vulnerability`: the first CVE of the group, else its first GHSA, else its first
   * record; nothing for an empty group.
   */
  function PickBest(g: seq<OsvRecord>): (r: Option<OsvRecord>)
    ensures r.None? <==> |g| == 0
    ensures r.Some? ==>
      exists k :: 0 <= k < |g| && r.value == g[k]
        && (forall j :: 0 <= j < |g| ==> Class(g[k]) <= Class(g[j]))
        && (forall j :: 0 <= j < k ==> Class(g[k]) < Class(g[j]))
    ensures r.Some? && (exists j :: 0 <= j < |g| && Class(g[j]) == 0) ==> Class(r.value) == 0
    ensures (r.Some? && (forall j :: 0 <= j < |g| ==> Class(g[j]) != 0)
      && (exists j :: 0 <= j < |g| && Class(g[j]) == 1)) ==> Class(r.value) == 1
    ensures (forall j :: 0 <= j < |g| ==> Class(g[j]) == 2) && |g| > 0 ==> r == Some(g[0])
  {
    match PickBestIndex(g)
    case None => None
    case Some(i) => Some(g[i])
  }

  // ---------------------------------------------------------------- conversion

  /** The position of the first string in `xs` that starts with `p`. */
  function FirstWithPrefix(xs: seq<string>, p: string): (r: Option<nat>)
    ensures r.Some? ==> r.value < |xs| && StartsWith(xs[r.value], p)
    ensures r.Some? ==> forall j :: 0 <= j < r.value ==> !StartsWith(xs[j], p)
    ensures r.None? ==> forall j :: 0 <= j < |xs| ==> !StartsWith(xs[j], p)
  {
    if |xs| == 0 then None
    else if StartsWith(xs[0], p) then Some(0)
    else
      match FirstWithPrefix(xs[1..], p)
      case None => None
      case Some(i) => Some(i + 1)
  }

  /** The reported id: the first CVE alias, else the record's own id, else "UNKNOWN". */
  function ReportedId(rec: OsvRecord): (id: string)
    ensures (exists j :: 0 <= j < |rec.aliases| && StartsWith(rec.aliases[j], "CVE-")) ==>
      exists k :: 0 <= k < |rec.aliases| && id == rec.aliases[k] && StartsWith(id, "CVE-")
        && forall j :: 0 <= j < k ==> !StartsWith(rec.aliases[j], "CVE-")
    ensures (forall j :: 0 <= j < |rec.aliases| ==> !StartsWith(rec.aliases[j], "CVE-")) ==>
      id == rec.id.GetOr("UNKNOWN")
  {
    match FirstWithPrefix(rec.aliases, "CVE-")
    case Some(i) => rec.aliases[i]
    case None => rec.id.GetOr("UNKNOWN")
  }

  /** The first severity entry whose upper-cased type mentions CVSS_V3. */
  function V3Entry(es: seq<SeverityEntry>): (r: Option<nat>)
    ensures r.Some? ==> r.value < |es| && Contains(Upper(es[r.value].kind), "CVSS_V3")
    ensures r.Some? ==> forall j :: 0 <= j < r.value ==> !Contains(Upper(es[j].kind), "CVSS_V3")
    ensures r.None? ==> forall j :: 0 <= j < |es| ==> !Contains(Upper(es[j].kind), "CVSS_V3")
  {
    if |es| == 0 then None
    else if Contains(Upper(es[0].kind), "CVSS_V3") then Some(0)
    else
      match V3Entry(es[1..])
      case None => None
      case Some(i) => Some(i + 1)
  }

  /**
   * Score and vector from the `severity` list: only the first CVSS_V3 entry is looked at, and
   * only when its score is a vector ("CVSS:…") does it give a score.
   */
  function ScoreFromSeverity(sev: Option<seq<SeverityEntry>>): (r: (real, string))
    ensures 0.0 <= r.0 <= 10.0
    ensures r.1 == "" || StartsWith(r.1, "CVSS:")
    ensures r.1 != "" <==> (sev.Some? && V3Entry(sev.value).Some?
      && StartsWith(sev.value[V3Entry(sev.value).value].score, "CVSS:"))
    ensures r.1 != "" ==> r.1 == sev.value[V3Entry(sev.value).value].score
    ensures r.1 == "" ==> r.0 == 0.0
    ensures r.1 != "" ==> r.0 == ParseCvssScore(r.1)
  {
    match sev
    case None => (0.0, "")
    case Some(es) =>
      match V3Entry(es)
      case None => (0.0, "")
      case Some(i) =>
        if StartsWith(es[i].score, "CVSS:") then (ParseCvssScore(es[i].score), es[i].score)
        else (0.0, "")
  }

  /** The fallback table for `database_specific.severity`, applied to the upper-cased label. */
  function DbSeverityScore(tag: string): (r: Option<real>)
    ensures r.Some? <==> tag in {"CRITICAL", "HIGH", "MODERATE", "MEDIUM", "LOW"}
    ensures tag == "CRITICAL" ==> r == Some(9.5)
    ensures tag == "HIGH" ==> r == Some(7.5)
    ensures tag == "MODERATE" || tag == "MEDIUM" ==> r == Some(5.0)
    ensures tag == "LOW" ==> r == Some(2.5)
    ensures r.Some? ==> 0.0 < r.value < 10.0
  {
    if tag == "CRITICAL" then Some(9.5)
    else if tag == "HIGH" then Some(7.5)
    else if tag == "MODERATE" || tag == "MEDIUM" then Some(5.0)
    else if tag == "LOW" then Some(2.5)
    else None
  }

  /** The description: summary, else details, else a placeholder, cut to 500 characters. */
  function Description(rec: OsvRecord): (d: string)
    ensures 0 < |d| <= 500
    ensures Truthy(rec.summary) ==> d == Take(rec.summary, 500)
    ensures !Truthy(rec.summary) && Truthy(rec.details) ==> d == Take(rec.details, 500)
    ensures !Truthy(rec.summary) && !Truthy(rec.details) ==> d == "No description available"
  {
    var full := if Truthy(rec.summary) then rec.summary
      else if Truthy(rec.details) then rec.details
      else "No description available";
    Take(full, 500)
  }

  /** `_convert_osv_to_vulnerability`. */
  function ConvertOsv(rec: OsvRecord, comp: Component): (v: Vulnerability)
    ensures v.id == ReportedId(rec)
    ensures v.componentRef == comp.bomRef && v.componentName == comp.name
    ensures 0.0 <= v.cvssScore <= 10.0 && v.severity == v.cvssScore / 10.0
    ensures 0.0 <= v.severity <= 1.0
    ensures v.cvssVector == "" || StartsWith(v.cvssVector, "CVSS:")
    ensures v.cvssVector != "" && ParseCvssScore(v.cvssVector) != 0.0 ==>
      v.cvssScore == ParseCvssScore(v.cvssVector)
    ensures v.cvssScore == 0.0 ==> DbSeverityScore(Upper(rec.dbSeverity)).None?
    ensures v.cvssVector == ScoreFromSeverity(rec.severity).1
    ensures ScoreFromSeverity(rec.severity).0 != 0.0 ==> v.cvssScore == ScoreFromSeverity(rec.severity).0
    ensures ScoreFromSeverity(rec.severity).0 == 0.0 ==>
      v.cvssScore == DbSeverityScore(Upper(rec.dbSeverity)).GetOr(0.0)
    ensures v.description == Description(rec)
    ensures 0 < |v.description| <= 500
    ensures v.tcs == 0.0 && v.vei == 0.0 && v.epss == 0.0 && !v.kev && v.hdfmScore == 0.0
  {
    var (parsed, vector) := ScoreFromSeverity(rec.severity);
    var cvss := if parsed == 0.0 then DbSeverityScore(Upper(rec.dbSeverity)).GetOr(0.0) else parsed;
    NewVulnerability(ReportedId(rec), comp.bomRef, comp.name, Number(cvss), vector,
      Description(rec), Number(cvss / 10.0))
  }

  // ---------------------------------------------------------------- grouping

  /**
   * The program as written, or with its two defects corrected. As written, a found group is
   * tested by truthiness (`if found_group:`), which treats a group keyed by the empty string as
   * not found, and `parse_sbom` passes its sentence about missing components as the missing
   * field's name. `Corrected` tests `is not None` and passes the sentence as the reason.
   */
  datatype Mode = AsWritten | Corrected

  /** A group of records under its dictionary key, in insertion order. */
  datatype Group = Group(key: string, members: seq<OsvRecord>)

  /** The id a record is grouped under: its own id, else "UNKNOWN". */
  function GroupingId(rec: OsvRecord): string {
    rec.id.GetOr("UNKNOWN")
  }

  /** A record's aliases as a set. */
  function AliasSet(rec: OsvRecord): set<string> {
    set a | a in rec.aliases
  }

  predicate Found(f: Option<string>, mode: Mode) {
    match mode
    case AsWritten => TruthyOpt(f)
    case Corrected => f.Some?
  }

  /**
   * Whether some member is `vid` or lists it as an alias, scanning in order; `None` is the
   * KeyError raised by the first member without an id reached before a match.
   */
  function MemberMatch(ms: seq<OsvRecord>, vid: string): (r: Option<bool>)
    ensures r == Some(false) ==> forall m :: m in ms ==> m.id.Some? && m.id.value != vid && vid !in m.aliases
    ensures (forall m :: m in ms ==> m.id.Some?) ==> r.Some?
  {
    if |ms| == 0 then Some(false)
    else if ms[0].id.None? then None
    else if ms[0].id.value == vid || vid in ms[0].aliases then Some(true)
    else
      var rest := MemberMatch(ms[1..], vid);
      assert forall m :: m in ms[1..] ==> m in ms;
      rest
  }

  /** Some member of the group is `vid` or lists it as an alias, and the scan reaches it. */
  predicate Hit(g: Group, vid: string) {
    MemberMatch(g.members, vid) == Some(true)
  }

  /** Every member of the group has an id, and none is `vid` or lists it. */
  predicate NoHit(g: Group, vid: string) {
    MemberMatch(g.members, vid) == Some(false)
  }

  /**
   * The scan by id: each group in turn, remembering the last matching key and stopping once
   * the remembered key counts as found. `None` is a KeyError.
   */
  function ScanById(gs: seq<Group>, vid: string, mode: Mode, found: Option<string>): (r: Option<Option<string>>)
    ensures (forall i :: 0 <= i < |gs| ==> NoHit(gs[i], vid)) ==> r == Some(found)
    ensures r.Some? && r.value.Some? && r.value != found ==>
      exists i :: 0 <= i < |gs| && gs[i].key == r.value.value && Hit(gs[i], vid)
    ensures mode == Corrected && found.None? ==>
      (r == Some(None) <==> forall i :: 0 <= i < |gs| ==> NoHit(gs[i], vid))
    ensures mode == Corrected && found.None? && r.Some? && r.value.Some? ==>
      exists i :: 0 <= i < |gs| && gs[i].key == r.value.value && Hit(gs[i], vid)
        && forall j :: 0 <= j < i ==> NoHit(gs[j], vid)
  {
    if |gs| == 0 then Some(found)
    else
      match MemberMatch(gs[0].members, vid)
      case None => None
      case Some(hit) =>
        var f := if hit then Some(gs[0].key) else found;
        if Found(f, mode) then Some(f)
        else
          var r := ScanById(gs[1..], vid, mode, f);
          ScanByIdShift(gs, vid, mode, found, f, r);
          r
  }

  /** The facts about the scan of `gs[1..]` carried over to `gs`, when the first group did not stop it. */
  lemma ScanByIdShift(gs: seq<Group>, vid: string, mode: Mode, found: Option<string>, f: Option<string>,
                      r: Option<Option<string>>)
    requires |gs| > 0 && MemberMatch(gs[0].members, vid).Some?
    requires f == (if MemberMatch(gs[0].members, vid) == Some(true) then Some(gs[0].key) else found)
    requires !Found(f, mode)
    requires (forall i :: 0 <= i < |gs[1..]| ==> NoHit(gs[1..][i], vid)) ==> r == Some(f)
    requires r.Some? && r.value.Some? && r.value != f ==>
      exists i :: 0 <= i < |gs[1..]| && gs[1..][i].key == r.value.value && Hit(gs[1..][i], vid)
    requires mode == Corrected && f.None? ==>
      (r == Some(None) <==> forall i :: 0 <= i < |gs[1..]| ==> NoHit(gs[1..][i], vid))
    requires mode == Corrected && f.None? && r.Some? && r.value.Some? ==>
      exists i :: 0 <= i < |gs[1..]| && gs[1..][i].key == r.value.value && Hit(gs[1..][i], vid)
        && forall j :: 0 <= j < i ==> NoHit(gs[1..][j], vid)
    ensures (forall i :: 0 <= i < |gs| ==> NoHit(gs[i], vid)) ==> r == Some(found)
    ensures r.Some? && r.value.Some? && r.value != found ==>
      exists i :: 0 <= i < |gs| && gs[i].key == r.value.value && Hit(gs[i], vid)
    ensures mode == Corrected && found.None? ==>
      (r == Some(None) <==> forall i :: 0 <= i < |gs| ==> NoHit(gs[i], vid))
    ensures mode == Corrected && found.None? && r.Some? && r.value.Some? ==>
      exists i :: 0 <= i < |gs| && gs[i].key == r.value.value && Hit(gs[i], vid)
        && forall j :: 0 <= j < i ==> NoHit(gs[j], vid)
  {
    assert forall i :: 0 <= i < |gs[1..]| ==> gs[1..][i] == gs[i + 1];
    if forall i :: 0 <= i < |gs| ==> NoHit(gs[i], vid) {
      assert NoHit(gs[0], vid);
    }
    if r.Some? && r.value.Some? && r.value != found {
      if r.value == f {
        assert Hit(gs[0], vid) && gs[0].key == r.value.value;
      } else {
        var i :| 0 <= i < |gs[1..]| && gs[1..][i].key == r.value.value && Hit(gs[1..][i], vid);
        assert gs[i + 1].key == r.value.value && Hit(gs[i + 1], vid);
      }
    }
    if mode == Corrected && found.None? {
      // Corrected, a hit would have stopped the scan, so the first group missed.
      assert f.None?;
      var m := MemberMatch(gs[0].members, vid);
      assert m.Some? && m != Some(true);
      assert !m.value;
      assert m == Some(false);
      if r.Some? && r.value.Some? {
        var i :| 0 <= i < |gs[1..]| && gs[1..][i].key == r.value.value && Hit(gs[1..][i], vid)
          && forall j :: 0 <= j < i ==> NoHit(gs[1..][j], vid);
        assert gs[i + 1].key == r.value.value && Hit(gs[i + 1], vid);
        assert forall j :: 0 <= j < i + 1 ==> NoHit(gs[j], vid) by {
          forall j | 0 <= j < i + 1 ensures NoHit(gs[j], vid) {
            if j > 0 {
              assert gs[j] == gs[1..][j - 1];
            }
          }
        }
      }
      if forall i :: 0 <= i < |gs[1..]| ==> NoHit(gs[1..][i], vid) {
        assert forall i :: 0 <= i < |gs| ==> NoHit(gs[i], vid) by {
          forall i | 0 <= i < |gs| ensures NoHit(gs[i], vid) {
            if i > 0 {
              assert gs[i] == gs[1..][i - 1];
            }
          }
        }
      }
    }
  }

  /** All ids and aliases of a group's members; `None` is the KeyError of a member without an id. */
  function GroupIds(ms: seq<OsvRecord>): (r: Option<set<string>>)
    ensures r.Some? <==> forall m :: m in ms ==> m.id.Some?
    ensures r.Some? ==> forall m :: m in ms ==> m.id.value in r.value
  {
    if |ms| == 0 then Some({})
    else if ms[0].id.None? then None
    else
      match GroupIds(ms[1..])
      case None => None
      case Some(s) =>
        assert forall m :: m in ms ==> m == ms[0] || m in ms[1..];
        Some({ms[0].id.value} + AliasSet(ms[0]) + s)
  }

  /** The group's ids and aliases contain `vid` or meet `aliases`, and no member lacks an id. */
  predicate Meets(g: Group, vid: string, aliases: set<string>) {
    GroupIds(g.members).Some? && (vid in GroupIds(g.members).value || aliases * GroupIds(g.members).value != {})
  }

  /** The group's ids and aliases neither contain `vid` nor meet `aliases`, and no member lacks an id. */
  predicate Misses(g: Group, vid: string, aliases: set<string>) {
    GroupIds(g.members).Some? && vid !in GroupIds(g.members).value && aliases * GroupIds(g.members).value == {}
  }

  /**
   * The scan by aliases: the first group whose ids and aliases contain `vid` or meet the
   * record's aliases. `Some(None)` when no group does; `None` is a KeyError.
   */
  function ScanByAlias(gs: seq<Group>, vid: string, aliases: set<string>): (r: Option<Option<string>>)
    ensures r.Some? && r.value.Some? ==>
      exists i :: 0 <= i < |gs| && gs[i].key == r.value.value
        && Meets(gs[i], vid, aliases) && forall j :: 0 <= j < i ==> Misses(gs[j], vid, aliases)
    ensures r == Some(None) <==> forall i :: 0 <= i < |gs| ==> Misses(gs[i], vid, aliases)
    ensures r.None? ==>
      exists i :: 0 <= i < |gs| && GroupIds(gs[i].members).None?
        && forall j :: 0 <= j < i ==> Misses(gs[j], vid, aliases)
    ensures (forall i, m :: 0 <= i < |gs| && m in gs[i].members ==> m.id.Some?) ==> r.Some?
  {
    if |gs| == 0 then Some(None)
    else
      match GroupIds(gs[0].members)
      case None => None
      case Some(ids) =>
        if vid in ids || aliases * ids != {} then Some(Some(gs[0].key))
        else
          var r := ScanByAlias(gs[1..], vid, aliases);
          ScanByAliasShift(gs, vid, aliases, r);
          r
  }

  /** The facts about the scan of `gs[1..]` carried over to `gs`, when the first group misses. */
  lemma ScanByAliasShift(gs: seq<Group>, vid: string, aliases: set<string>, r: Option<Option<string>>)
    requires |gs| > 0 && Misses(gs[0], vid, aliases)
    requires r.Some? && r.value.Some? ==>
      exists i :: 0 <= i < |gs[1..]| && gs[1..][i].key == r.value.value
        && Meets(gs[1..][i], vid, aliases) && forall j :: 0 <= j < i ==> Misses(gs[1..][j], vid, aliases)
    requires r == Some(None) <==> forall i :: 0 <= i < |gs[1..]| ==> Misses(gs[1..][i], vid, aliases)
    requires r.None? ==>
      exists i :: 0 <= i < |gs[1..]| && GroupIds(gs[1..][i].members).None?
        && forall j :: 0 <= j < i ==> Misses(gs[1..][j], vid, aliases)
    ensures r.Some? && r.value.Some? ==>
      exists i :: 0 <= i < |gs| && gs[i].key == r.value.value
        && Meets(gs[i], vid, aliases) && forall j :: 0 <= j < i ==> Misses(gs[j], vid, aliases)
    ensures r == Some(None) <==> forall i :: 0 <= i < |gs| ==> Misses(gs[i], vid, aliases)
    ensures r.None? ==>
      exists i :: 0 <= i < |gs| && GroupIds(gs[i].members).None?
        && forall j :: 0 <= j < i ==> Misses(gs[j], vid, aliases)
  {
    assert forall i :: 0 <= i < |gs[1..]| ==> gs[1..][i] == gs[i + 1];
    if r.Some? && r.value.Some? {
      var i :| 0 <= i < |gs[1..]| && gs[1..][i].key == r.value.value
        && Meets(gs[1..][i], vid, aliases) && forall j :: 0 <= j < i ==> Misses(gs[1..][j], vid, aliases);
      assert gs[i + 1].key == r.value.value && Meets(gs[i + 1], vid, aliases);
      MissesBefore(gs, vid, aliases, i);
    }
    if r.None? {
      var i :| 0 <= i < |gs[1..]| && GroupIds(gs[1..][i].members).None?
        && forall j :: 0 <= j < i ==> Misses(gs[1..][j], vid, aliases);
      assert GroupIds(gs[i + 1].members).None?;
      MissesBefore(gs, vid, aliases, i);
    }
    if forall i :: 0 <= i < |gs[1..]| ==> Misses(gs[1..][i], vid, aliases) {
      MissesBefore(gs, vid, aliases, |gs[1..]|);
    }
  }

  /** A first group that misses, followed by `i` that miss, makes `i + 1` groups that miss. */
  lemma MissesBefore(gs: seq<Group>, vid: string, aliases: set<string>, i: nat)
    requires 0 <= i < |gs| && Misses(gs[0], vid, aliases)
    requires forall j :: 0 <= j < i ==> Misses(gs[1..][j], vid, aliases)
    ensures forall j :: 0 <= j < i + 1 ==> Misses(gs[j], vid, aliases)
  {
    forall j | 0 <= j < i + 1 ensures Misses(gs[j], vid, aliases) {
      if j > 0 {
        assert gs[j] == gs[1..][j - 1];
      }
    }
  }

  /** `groups[key].append(rec)`: the group under `key` gains `rec` at its end. */
  function AppendTo(gs: seq<Group>, key: string, rec: OsvRecord): (r: seq<Group>)
    ensures |r| == |gs|
    ensures forall i :: 0 <= i < |gs| ==> r[i].key == gs[i].key
    ensures forall i :: 0 <= i < |gs| ==> |gs[i].members| <= |r[i].members|
    ensures forall i :: 0 <= i < |gs| ==> r[i].members[..|gs[i].members|] == gs[i].members
    ensures forall i, m :: 0 <= i < |gs| && m in r[i].members ==> m in gs[i].members || m == rec
  {
    if |gs| == 0 then []
    else if gs[0].key == key then [gs[0].(members := gs[0].members + [rec])] + gs[1..]
    else [gs[0]] + AppendTo(gs[1..], key, rec)
  }

  /** `groups[key] = [rec]`: replaces the group under `key` in place, or adds one at the end. */
  function Put(gs: seq<Group>, key: string, rec: OsvRecord): (r: seq<Group>)
    ensures |gs| <= |r| <= |gs| + 1
    ensures forall i :: 0 <= i < |gs| ==> r[i].key == gs[i].key
    ensures forall i :: 0 <= i < |r| ==> (i < |gs| && r[i] == gs[i]) || r[i] == Group(key, [rec])
    ensures (forall i :: 0 <= i < |gs| ==> gs[i].key != key) ==> r == gs + [Group(key, [rec])]
  {
    if |gs| == 0 then [Group(key, [rec])]
    else if gs[0].key == key then [Group(key, [rec])] + gs[1..]
    else [gs[0]] + Put(gs[1..], key, rec)
  }

  /**
   * The key of the group a record joins: the id scan when the record's id was seen before, then
   * the alias scan unless the id scan's key counts as found. `Some(None)` is "no group"; `None`
   * is a KeyError.
   */
  function JoinKey(gs: seq<Group>, seen: set<string>, rec: OsvRecord, mode: Mode): Option<Option<string>> {
    var vid := GroupingId(rec);
    var byId := if vid in seen then ScanById(gs, vid, mode, None) else Some(None);
    match byId
    case None => None
    case Some(f1) =>
      if Found(f1, mode) then Some(f1)
      else
        match ScanByAlias(gs, vid, AliasSet(rec))
        case None => None
        case Some(None) => Some(f1)
        case Some(Some(k)) => Some(Some(k))
  }

  /** Every group has at least one member. */
  predicate NonEmptyGroups(gs: seq<Group>) {
    forall i :: 0 <= i < |gs| ==> |gs[i].members| > 0
  }

  /**
   * One iteration of the grouping loop: the record joins the group under the found key, or else
   * starts the group under its own id (replacing one of that key); its id and aliases are seen.
   */
  function GroupStep(gs: seq<Group>, seen: set<string>, rec: OsvRecord, mode: Mode): (r: Option<(seq<Group>, set<string>)>)
    ensures r.Some? <==> JoinKey(gs, seen, rec, mode).Some?
    ensures r.Some? ==> r.value.1 == seen + {GroupingId(rec)} + AliasSet(rec)
    ensures r.Some? ==> |gs| <= |r.value.0| <= |gs| + 1
    ensures r.Some? && Found(JoinKey(gs, seen, rec, mode).value, mode) ==>
      r.value.0 == AppendTo(gs, JoinKey(gs, seen, rec, mode).value.value, rec)
    ensures r.Some? && !Found(JoinKey(gs, seen, rec, mode).value, mode) ==>
      r.value.0 == Put(gs, GroupingId(rec), rec)
    ensures r.Some? && NonEmptyGroups(gs) ==> NonEmptyGroups(r.value.0)
  {
    match JoinKey(gs, seen, rec, mode)
    case None => None
    case Some(f) =>
      var next := if Found(f, mode) then AppendTo(gs, f.value, rec) else Put(gs, GroupingId(rec), rec);
      Some((next, seen + {GroupingId(rec)} + AliasSet(rec)))
  }

  /**
   * The grouping loop over the remaining records: each record opens at most one group, and no
   * group is ever left empty.
   */
  function GroupFrom(recs: seq<OsvRecord>, gs: seq<Group>, seen: set<string>, mode: Mode): (r: Option<seq<Group>>)
    ensures r.Some? ==> |gs| <= |r.value| <= |gs| + |recs|
    ensures r.Some? && NonEmptyGroups(gs) ==> NonEmptyGroups(r.value)
    decreases |recs|
  {
    if |recs| == 0 then Some(gs)
    else
      match GroupStep(gs, seen, recs[0], mode)
      case None => None
      case Some(st) => GroupFrom(recs[1..], st.0, st.1, mode)
  }

  /**
   * Groups the records of one component; `None` is the KeyError the loop can raise. In either
   * mode there are at most as many groups as records, and none is empty.
   */
  function GroupRecords(recs: seq<OsvRecord>, mode: Mode): (r: Option<seq<Group>>)
    ensures r.Some? ==> |r.value| <= |recs| && NonEmptyGroups(r.value)
  {
    GroupFrom(recs, [], {}, mode)
  }

  /** All members of all groups, group by group. */
  function Flatten(gs: seq<Group>): seq<OsvRecord> {
    if |gs| == 0 then [] else gs[0].members + Flatten(gs[1..])
  }

  /** `v` is the converted representative of the group `g`. */
  predicate Represents(v: Vulnerability, g: Group, comp: Component) {
    PickBest(g.members).Some? && v == ConvertOsv(PickBest(g.members).value, comp)
  }

  /** One representative per group, converted, in group order; an empty group contributes nothing. */
  function ConvertGroups(gs: seq<Group>, comp: Component): (r: seq<Vulnerability>)
    ensures |r| <= |gs|
    ensures forall v :: v in r ==> v.componentRef == comp.bomRef && v.componentName == comp.name
    ensures forall v :: v in r ==> 0.0 <= v.severity <= 1.0
    ensures NonEmptyGroups(gs) ==> |r| == |gs| && forall i :: 0 <= i < |gs| ==> Represents(r[i], gs[i], comp)
  {
    if |gs| == 0 then []
    else
      var rest := ConvertGroups(gs[1..], comp);
      assert NonEmptyGroups(gs) ==> NonEmptyGroups(gs[1..]) by {
        assert forall i :: 0 <= i < |gs[1..]| ==> gs[1..][i] == gs[i + 1];
      }
      match PickBest(gs[0].members)
      case None => rest
      case Some(best) =>
        var r := [ConvertOsv(best, comp)] + rest;
        assert NonEmptyGroups(gs) ==> forall i :: 0 <= i < |gs| ==> Represents(r[i], gs[i], comp) by {
          if NonEmptyGroups(gs) {
            forall i | 0 <= i < |gs| ensures Represents(r[i], gs[i], comp) {
              if i > 0 {
                assert r[i] == rest[i - 1] && gs[i] == gs[1..][i - 1];
              }
            }
          }
        }
        r
  }

  /**
   * `_deduplicate_vulnerabilities`; `None` is the KeyError the grouping loop can raise. The
   * result holds one converted representative per group, in group order, so it is never
   * longer than the list of records.
   */
  function Dedup(recs: seq<OsvRecord>, comp: Component, mode: Mode): (r: Option<seq<Vulnerability>>)
    ensures r.Some? <==> GroupRecords(recs, mode).Some?
    ensures r.Some? ==> |r.value| == |GroupRecords(recs, mode).value| <= |recs|
    ensures r.Some? ==> forall i :: 0 <= i < |r.value| ==>
      Represents(r.value[i], GroupRecords(recs, mode).value[i], comp)
    ensures r.Some? ==> forall v :: v in r.value ==> v.componentRef == comp.bomRef
    ensures r.Some? ==> forall v :: v in r.value ==> 0.0 <= v.severity <= 1.0
  {
    match GroupRecords(recs, mode)
    case None => None
    case Some(gs) => Some(ConvertGroups(gs, comp))
  }

  // ---------------------------------------------------------------- grouping invariant (corrected)

  /** Every member has an id. */
  predicate Identified(ms: seq<OsvRecord>) {
    forall m :: m in ms ==> m.id.Some?
  }

  /**
   * What the grouping keeps when found groups are tested with `is not None`: keys are distinct,
   * every group is non-empty, is keyed by its first member's id, and all members have ids.
   */
  predicate WellGrouped(gs: seq<Group>) {
    (forall i, j :: 0 <= i < j < |gs| ==> gs[i].key != gs[j].key)
    && (forall i :: 0 <= i < |gs| ==> |gs[i].members| > 0 && gs[i].members[0].id == Some(gs[i].key))
    && (forall i :: 0 <= i < |gs| ==> Identified(gs[i].members))
  }

  lemma {:induction false} FlattenAppend(gs: seq<Group>, g: Group)
    ensures multiset(Flatten(gs + [g])) == multiset(Flatten(gs)) + multiset(g.members)
    decreases |gs|
  {
    if |gs| == 0 {
      assert gs + [g] == [g];
      assert Flatten([g]) == g.members + Flatten([]);
    } else {
      assert (gs + [g])[1..] == gs[1..] + [g];
      FlattenAppend(gs[1..], g);
    }
  }

  lemma {:induction false} FlattenAppendTo(gs: seq<Group>, k: string, rec: OsvRecord)
    requires exists i :: 0 <= i < |gs| && gs[i].key == k
    ensures multiset(Flatten(AppendTo(gs, k, rec))) == multiset(Flatten(gs)) + multiset{rec}
    decreases |gs|
  {
    if gs[0].key != k {
      var i :| 0 <= i < |gs| && gs[i].key == k;
      assert gs[1..][i - 1].key == k;
      FlattenAppendTo(gs[1..], k, rec);
    }
  }

  /** Appending to an existing group keeps the grouping well formed. */
  lemma AppendKeepsWellGrouped(gs: seq<Group>, k: string, rec: OsvRecord)
    requires WellGrouped(gs) && rec.id.Some?
    ensures WellGrouped(AppendTo(gs, k, rec))
  {
    var r := AppendTo(gs, k, rec);
    forall i | 0 <= i < |gs|
      ensures |r[i].members| > 0 && r[i].members[0].id == Some(r[i].key)
      ensures Identified(r[i].members)
    {
      assert r[i].members[..|gs[i].members|][0] == gs[i].members[0];
    }
  }

  /** A fresh key keeps the grouping well formed. */
  lemma PutFreshKeepsWellGrouped(gs: seq<Group>, rec: OsvRecord)
    requires WellGrouped(gs) && rec.id.Some?
    requires forall i :: 0 <= i < |gs| ==> gs[i].key != rec.id.value
    ensures WellGrouped(Put(gs, rec.id.value, rec))
  {
    SnocKeepsWellGrouped(gs, Group(rec.id.value, [rec]));
  }

  lemma SnocKeepsWellGrouped(gs: seq<Group>, g: Group)
    requires WellGrouped(gs)
    requires forall i :: 0 <= i < |gs| ==> gs[i].key != g.key
    requires |g.members| > 0 && g.members[0].id == Some(g.key) && Identified(g.members)
    ensures WellGrouped(gs + [g])
  {
  }

  /** When no group's ids contain `vid`, no group is keyed by `vid`. */
  lemma NoMatchMeansFreshKey(gs: seq<Group>, vid: string, aliases: set<string>)
    requires WellGrouped(gs)
    requires forall i :: 0 <= i < |gs| ==> Misses(gs[i], vid, aliases)
    ensures forall i :: 0 <= i < |gs| ==> gs[i].key != vid
  {
    forall i | 0 <= i < |gs| ensures gs[i].key != vid {
      assert gs[i].members[0] in gs[i].members;
    }
  }

  lemma MembersIdentified(gs: seq<Group>)
    requires WellGrouped(gs)
    ensures forall i, m :: 0 <= i < |gs| && m in gs[i].members ==> m.id.Some?
  {
  }

  /** The id scan, in corrected mode over identified members, never raises. */
  lemma {:induction false} ScanByIdTotal(gs: seq<Group>, vid: string, found: Option<string>)
    requires forall i :: 0 <= i < |gs| ==> Identified(gs[i].members)
    requires found.None?
    ensures ScanById(gs, vid, Corrected, found).Some?
    decreases |gs|
  {
    if |gs| > 0 {
      assert MemberMatch(gs[0].members, vid).Some?;
      if MemberMatch(gs[0].members, vid) == Some(false) {
        assert forall i :: 0 <= i < |gs[1..]| ==> Identified(gs[1..][i].members) by {
          forall i | 0 <= i < |gs[1..]| ensures Identified(gs[1..][i].members) {
            assert gs[1..][i] == gs[i + 1];
          }
        }
        ScanByIdTotal(gs[1..], vid, found);
      }
    }
  }

  /** One corrected step over an identified record never raises and keeps the grouping well formed. */
  lemma StepCorrected(gs: seq<Group>, seen: set<string>, rec: OsvRecord)
    requires WellGrouped(gs) && rec.id.Some?
    ensures GroupStep(gs, seen, rec, Corrected).Some?
    ensures WellGrouped(GroupStep(gs, seen, rec, Corrected).value.0)
  {
    var vid := GroupingId(rec);
    MembersIdentified(gs);
    if vid in seen {
      ScanByIdTotal(gs, vid, None);
    }
    var f1 := (if vid in seen then ScanById(gs, vid, Corrected, None) else Some(None)).value;
    if f1.Some? {
      AppendKeepsWellGrouped(gs, f1.value, rec);
    } else {
      var byAlias := ScanByAlias(gs, vid, AliasSet(rec));
      if byAlias.value.Some? {
        AppendKeepsWellGrouped(gs, byAlias.value.value, rec);
      } else {
        NoMatchMeansFreshKey(gs, vid, AliasSet(rec));
        PutFreshKeepsWellGrouped(gs, rec);
      }
    }
  }

  /** One corrected step over an identified record files it once and loses nothing. */
  lemma StepCorrectedKeeps(gs: seq<Group>, seen: set<string>, rec: OsvRecord)
    requires WellGrouped(gs) && rec.id.Some?
    requires GroupStep(gs, seen, rec, Corrected).Some?
    ensures multiset(Flatten(GroupStep(gs, seen, rec, Corrected).value.0))
      == multiset(Flatten(gs)) + multiset{rec}
  {
    var vid := GroupingId(rec);
    var f1 := (if vid in seen then ScanById(gs, vid, Corrected, None) else Some(None)).value;
    if f1.Some? {
      FlattenAppendTo(gs, f1.value, rec);
    } else {
      var byAlias := ScanByAlias(gs, vid, AliasSet(rec));
      if byAlias.value.Some? {
        FlattenAppendTo(gs, byAlias.value.value, rec);
      } else {
        NoMatchMeansFreshKey(gs, vid, AliasSet(rec));
        FlattenAppend(gs, Group(vid, [rec]));
      }
    }
  }

  /** The corrected loop over identified records never raises and keeps the grouping well formed. */
  lemma {:induction false} GroupFromCorrected(recs: seq<OsvRecord>, gs: seq<Group>, seen: set<string>)
    requires WellGrouped(gs) && Identified(recs)
    ensures GroupFrom(recs, gs, seen, Corrected).Some?
    ensures WellGrouped(GroupFrom(recs, gs, seen, Corrected).value)
    decreases |recs|
  {
    if |recs| > 0 {
      var rec, rest := recs[0], recs[1..];
      assert rec in recs;
      StepCorrected(gs, seen, rec);
      var st := GroupStep(gs, seen, rec, Corrected).value;
      assert GroupFrom(recs, gs, seen, Corrected) == GroupFrom(rest, st.0, st.1, Corrected);
      IdentifiedRest(recs);
      GroupFromCorrected(rest, st.0, st.1);
    }
  }

  /** The records after the first of identified records are identified. */
  lemma IdentifiedRest(recs: seq<OsvRecord>)
    requires |recs| > 0 && Identified(recs)
    ensures Identified(recs[1..])
  {
    forall m | m in recs[1..] ensures m.id.Some? {
      assert m in recs;
    }
  }

  /** The corrected loop over identified records files every record exactly once. */
  lemma {:induction false} GroupFromCorrectedKeeps(recs: seq<OsvRecord>, gs: seq<Group>, seen: set<string>)
    requires WellGrouped(gs) && Identified(recs)
    requires GroupFrom(recs, gs, seen, Corrected).Some?
    ensures multiset(Flatten(GroupFrom(recs, gs, seen, Corrected).value))
      == multiset(Flatten(gs)) + multiset(recs)
    decreases |recs|
  {
    if |recs| > 0 {
      var rec, rest := recs[0], recs[1..];
      assert rec in recs;
      StepCorrected(gs, seen, rec);
      StepCorrectedKeeps(gs, seen, rec);
      var st := GroupStep(gs, seen, rec, Corrected).value;
      assert GroupFrom(recs, gs, seen, Corrected) == GroupFrom(rest, st.0, st.1, Corrected);
      IdentifiedRest(recs);
      GroupFromCorrectedKeeps(rest, st.0, st.1);
      assert recs == [rec] + rest;
      assert multiset(recs) == multiset{rec} + multiset(rest);
    }
  }

  /**
   * With found groups tested by `is not None` and every record carrying an id, grouping never
   * raises, keeps every record exactly once, and yields distinct keys, each the id of its group's
   * first record; so deduplication returns one vulnerability per group and never more than
   * there were records.
   */
  lemma GroupingCorrected(recs: seq<OsvRecord>, comp: Component)
    requires Identified(recs)
    ensures GroupRecords(recs, Corrected).Some?
    ensures WellGrouped(GroupRecords(recs, Corrected).value)
    ensures multiset(Flatten(GroupRecords(recs, Corrected).value)) == multiset(recs)
    ensures Dedup(recs, comp, Corrected).Some?
    ensures |Dedup(recs, comp, Corrected).value| == |GroupRecords(recs, Corrected).value|
    ensures |Dedup(recs, comp, Corrected).value| <= |recs|
  {
    GroupFromCorrected(recs, [], {});
    GroupFromCorrectedKeeps(recs, [], {});
    var gs := GroupRecords(recs, Corrected).value;
    assert multiset(Flatten(gs)) == multiset(recs);
    FlattenCountsGroups(gs);
    assert |multiset(recs)| == |recs|;
  }

  /** A grouping with non-empty groups holds at least one record per group. */
  lemma {:induction false} FlattenCountsGroups(gs: seq<Group>)
    requires forall i :: 0 <= i < |gs| ==> |gs[i].members| > 0
    ensures |gs| <= |Flatten(gs)|
    decreases |gs|
  {
    if |gs| > 0 {
      assert forall i :: 0 <= i < |gs[1..]| ==> |gs[1..][i].members| > 0 by {
        forall i | 0 <= i < |gs[1..]| ensures |gs[1..][i].members| > 0 {
          assert gs[1..][i] == gs[i + 1];
        }
      }
      FlattenCountsGroups(gs[1..]);
    }
  }

  // ---------------------------------------------------------------- the empty-id finding

  /** A record whose own id is "" and that lists a CVE as alias. */
  const EmptyIdRecord := OsvRecord(Some(""), ["CVE-2021-1"], None, "", "", "")
  /** A GHSA record for the same CVE. */
  const GhsaRecord := OsvRecord(Some("GHSA-x"), ["CVE-2021-1"], None, "", "", "")

  /** The groups after the first record, in either mode. */
  const FirstGroups := [Group("", [EmptyIdRecord])]
  /** The ids seen after the first record. */
  const SeenAfterFirst: set<string> := {"", "CVE-2021-1"}

  /**
   * As written, the second record's shared alias does find the group keyed "", but "" is falsy,
   * so it opens a group of its own: the same CVE is reported twice.
   */
  lemma EmptyKeyedGroupIsMissed(comp: Component)
    ensures GroupRecords([EmptyIdRecord, GhsaRecord], AsWritten)
      == Some([Group("", [EmptyIdRecord]), Group("GHSA-x", [GhsaRecord])])
    ensures Dedup([EmptyIdRecord, GhsaRecord], comp, AsWritten).Some?
    ensures |Dedup([EmptyIdRecord, GhsaRecord], comp, AsWritten).value| == 2
    ensures Dedup([EmptyIdRecord, GhsaRecord], comp, AsWritten).value[0].id == "CVE-2021-1"
    ensures Dedup([EmptyIdRecord, GhsaRecord], comp, AsWritten).value[1].id == "CVE-2021-1"
  {
    var g2 := [Group("", [EmptyIdRecord]), Group("GHSA-x", [GhsaRecord])];
    SecondStepOpensGroup();
    PairGrouping(AsWritten, g2);
    SingletonGroupsConvert(comp);
  }

  /** As written, the second step finds "" but, "" being falsy, puts the record under its own id. */
  lemma SecondStepOpensGroup()
    ensures GroupStep(FirstGroups, SeenAfterFirst, GhsaRecord, AsWritten)
      == Some(([Group("", [EmptyIdRecord]), Group("GHSA-x", [GhsaRecord])], SeenAfterFirst + {"GHSA-x"}))
  {
    var h := GhsaRecord;
    SharedAliasFindsEmptyGroup();
    AliasesOfOne(h, "CVE-2021-1");
    assert GroupingId(h) == "GHSA-x" && "GHSA-x" !in SeenAfterFirst;
    assert Put(FirstGroups, "GHSA-x", h) == FirstGroups + [Group("GHSA-x", [h])];
    assert FirstGroups + [Group("GHSA-x", [h])] == [Group("", [EmptyIdRecord]), Group("GHSA-x", [h])];
    assert SeenAfterFirst + {"GHSA-x"} + {"CVE-2021-1"} == SeenAfterFirst + {"GHSA-x"};
  }

  /** Corrected, the second step joins the group keyed "". */
  lemma SecondStepJoinsGroup()
    ensures GroupStep(FirstGroups, SeenAfterFirst, GhsaRecord, Corrected)
      == Some(([Group("", [EmptyIdRecord, GhsaRecord])], SeenAfterFirst + {"GHSA-x"}))
  {
    var e, h := EmptyIdRecord, GhsaRecord;
    SharedAliasFindsEmptyGroup();
    AliasesOfOne(h, "CVE-2021-1");
    assert [e] + [h] == [e, h];
    assert FirstGroups[1..] == [];
    assert AppendTo(FirstGroups, "", h) == [Group("", [e, h])];
    assert SeenAfterFirst + {"GHSA-x"} + {"CVE-2021-1"} == SeenAfterFirst + {"GHSA-x"};
  }

  /** The grouping of the two records is whatever the second step makes of the first group. */
  lemma PairGrouping(mode: Mode, second: seq<Group>)
    requires GroupStep(FirstGroups, SeenAfterFirst, GhsaRecord, mode)
      == Some((second, SeenAfterFirst + {"GHSA-x"}))
    ensures GroupRecords([EmptyIdRecord, GhsaRecord], mode) == Some(second)
  {
    var e, h := EmptyIdRecord, GhsaRecord;
    FirstStep(mode);
    assert [e, h][1..] == [h];
    assert [h][1..] == [];
    assert GroupFrom([e, h], [], {}, mode) == GroupFrom([h], FirstGroups, SeenAfterFirst, mode);
  }

  /** Two one-record groups convert to one vulnerability each, both reported under the CVE. */
  lemma SingletonGroupsConvert(comp: Component)
    ensures ConvertGroups([Group("", [EmptyIdRecord]), Group("GHSA-x", [GhsaRecord])], comp)
      == [ConvertOsv(EmptyIdRecord, comp), ConvertOsv(GhsaRecord, comp)]
    ensures ConvertOsv(EmptyIdRecord, comp).id == "CVE-2021-1"
    ensures ConvertOsv(GhsaRecord, comp).id == "CVE-2021-1"
  {
    TwoSingletonsConvert("", EmptyIdRecord, "GHSA-x", GhsaRecord, comp);
    BothReportTheCve(comp);
  }

  /** Two one-record groups convert to their records, in order. */
  lemma TwoSingletonsConvert(k1: string, a: OsvRecord, k2: string, b: OsvRecord, comp: Component)
    ensures ConvertGroups([Group(k1, [a]), Group(k2, [b])], comp) == [ConvertOsv(a, comp), ConvertOsv(b, comp)]
  {
    var gs := [Group(k1, [a]), Group(k2, [b])];
    SingletonConverts(k2, b, comp);
    SingletonConverts(k1, a, comp);
    assert gs[1..] == [Group(k2, [b])];
    assert PickBestIndex(gs[0].members) == Some(0);
  }

  /** A one-record group converts to its record. */
  lemma SingletonConverts(k: string, a: OsvRecord, comp: Component)
    ensures ConvertGroups([Group(k, [a])], comp) == [ConvertOsv(a, comp)]
  {
    assert PickBestIndex([a]) == Some(0);
    assert [Group(k, [a])][1..] == [];
  }

  /** Both records of the example list CVE-2021-1 as their first alias, and are reported under it. */
  lemma BothReportTheCve(comp: Component)
    ensures ConvertOsv(EmptyIdRecord, comp).id == "CVE-2021-1" && ConvertOsv(GhsaRecord, comp).id == "CVE-2021-1"
  {
    assert FirstWithPrefix(EmptyIdRecord.aliases, "CVE-") == Some(0);
    assert FirstWithPrefix(GhsaRecord.aliases, "CVE-") == Some(0);
  }

  /** Either way, the first record opens the group keyed "" and marks "" and its CVE as seen. */
  lemma FirstStep(mode: Mode)
    ensures GroupStep([], {}, EmptyIdRecord, mode) == Some((FirstGroups, SeenAfterFirst))
  {
    var e := EmptyIdRecord;
    assert GroupingId(e) == "";
    AliasesOfOne(e, "CVE-2021-1");
    assert ScanByAlias([], "", {"CVE-2021-1"}) == Some(None);
    assert Put([], "", e) == [Group("", [e])];
    assert {} + {""} + {"CVE-2021-1"} == {"", "CVE-2021-1"};
  }

  lemma AliasesOfOne(rec: OsvRecord, a: string)
    requires rec.aliases == [a]
    ensures AliasSet(rec) == {a}
  {
    assert a in rec.aliases;
  }

  /** The second record's alias scan stops at the group keyed "". */
  lemma SharedAliasFindsEmptyGroup()
    ensures GroupIds([EmptyIdRecord]) == Some({"", "CVE-2021-1"})
    ensures ScanByAlias([Group("", [EmptyIdRecord])], "GHSA-x", {"CVE-2021-1"}) == Some(Some(""))
  {
    AliasesOfOne(EmptyIdRecord, "CVE-2021-1");
    assert [EmptyIdRecord][1..] == [];
    assert GroupIds([EmptyIdRecord]) == Some({""} + {"CVE-2021-1"} + {});
    assert {""} + {"CVE-2021-1"} + {} == {"", "CVE-2021-1"};
  }

  /** With `is not None` the two records form one group and the CVE is reported once. */
  lemma EmptyKeyedGroupIsFound(comp: Component)
    ensures GroupRecords([EmptyIdRecord, GhsaRecord], Corrected)
      == Some([Group("", [EmptyIdRecord, GhsaRecord])])
    ensures Dedup([EmptyIdRecord, GhsaRecord], comp, Corrected).Some?
    ensures |Dedup([EmptyIdRecord, GhsaRecord], comp, Corrected).value| == 1
  {
    SecondStepJoinsGroup();
    PairGrouping(Corrected, [Group("", [EmptyIdRecord, GhsaRecord])]);
    assert PickBestIndex([EmptyIdRecord, GhsaRecord]).Some?;
  }

  // ---------------------------------------------------------------- PURLs and the batch lookup

  /** `_construct_purl_from_component`: the bom-ref if it is a PURL, else a guess from its hints. */
  function ConstructPurl(c: Component): (r: Option<string>)
    ensures Truthy(c.bomRef) && StartsWith(c.bomRef, "pkg:") ==> r == Some(c.bomRef)
    ensures r.None? <==> !(Truthy(c.bomRef) && StartsWith(c.bomRef, "pkg:")) && Ecosystem(c) == ""
    ensures r.Some? ==> StartsWith(r.value, "pkg:")
    ensures r.Some? && r.value != c.bomRef ==>
      r.value == "pkg:" + Ecosystem(c) + "/" + c.name + "@" + c.version
  {
    if Truthy(c.bomRef) && StartsWith(c.bomRef, "pkg:") then Some(c.bomRef)
    else if Ecosystem(c) != "" then
      var p := "pkg:" + Ecosystem(c) + "/" + c.name + "@" + c.version;
      assert p[..4] == "pkg:";
      Some(p)
    else None
  }

  /** The ecosystem guessed from the bom-ref and the name, or "" when there is no hint. */
  function Ecosystem(c: Component): string {
    if Contains(c.bomRef, "npm") || '@' in c.name then "npm"
    else if Contains(c.bomRef, "pypi") || Contains(c.bomRef, "python") then "pypi"
    else if Contains(c.bomRef, "maven") || '.' in c.name then "maven"
    else ""
  }

  /** One query: the PURL sent and the component it stands for. */
  datatype Query = Query(purl: string, comp: Component)

  /** The PURL a component is looked up by: its own when truthy, else a constructed one. */
  function PurlFor(c: Component): Option<string> {
    if TruthyOpt(c.purl) then c.purl else ConstructPurl(c)
  }

  /** The number of components with a usable PURL. */
  function CountUsable(cs: seq<Component>): nat {
    if |cs| == 0 then 0 else (if TruthyOpt(PurlFor(cs[0])) then 1 else 0) + CountUsable(cs[1..])
  }

  /**
   * The queries, in component order; components without a usable PURL are skipped. The query of
   * the component at `j` sits at the number of usable components before it.
   */
  function BuildQueries(cs: seq<Component>): (qs: seq<Query>)
    ensures |qs| == CountUsable(cs) <= |cs|
    ensures forall j :: 0 <= j < |cs| && TruthyOpt(PurlFor(cs[j])) ==>
      CountUsable(cs[..j]) < |qs| && qs[CountUsable(cs[..j])] == Query(PurlFor(cs[j]).value, cs[j])
    ensures forall q :: q in qs ==> q.comp in cs && Truthy(q.purl) && PurlFor(q.comp) == Some(q.purl)
    ensures forall c :: c in cs && TruthyOpt(PurlFor(c)) ==> exists q :: q in qs && q.comp == c
  {
    if |cs| == 0 then []
    else
      var rest := BuildQueries(cs[1..]);
      var p := PurlFor(cs[0]);
      var qs := if TruthyOpt(p) then [Query(p.value, cs[0])] + rest else rest;
      BuildQueriesStep(cs, rest, qs);
      qs
  }

  /** The facts about the queries of `cs[1..]` carried over to `cs`. */
  lemma BuildQueriesStep(cs: seq<Component>, rest: seq<Query>, qs: seq<Query>)
    requires |cs| > 0
    requires qs == if TruthyOpt(PurlFor(cs[0])) then [Query(PurlFor(cs[0]).value, cs[0])] + rest else rest
    requires |rest| == CountUsable(cs[1..]) <= |cs[1..]|
    requires forall j :: 0 <= j < |cs[1..]| && TruthyOpt(PurlFor(cs[1..][j])) ==>
      CountUsable(cs[1..][..j]) < |rest| && rest[CountUsable(cs[1..][..j])] == Query(PurlFor(cs[1..][j]).value, cs[1..][j])
    requires forall q :: q in rest ==> q.comp in cs[1..] && Truthy(q.purl) && PurlFor(q.comp) == Some(q.purl)
    requires forall c :: c in cs[1..] && TruthyOpt(PurlFor(c)) ==> exists q :: q in rest && q.comp == c
    ensures |qs| == CountUsable(cs) <= |cs|
    ensures forall j :: 0 <= j < |cs| && TruthyOpt(PurlFor(cs[j])) ==>
      CountUsable(cs[..j]) < |qs| && qs[CountUsable(cs[..j])] == Query(PurlFor(cs[j]).value, cs[j])
    ensures forall q :: q in qs ==> q.comp in cs && Truthy(q.purl) && PurlFor(q.comp) == Some(q.purl)
    ensures forall c :: c in cs && TruthyOpt(PurlFor(c)) ==> exists q :: q in qs && q.comp == c
  {
    forall j | 0 <= j < |cs| && TruthyOpt(PurlFor(cs[j]))
      ensures CountUsable(cs[..j]) < |qs| && qs[CountUsable(cs[..j])] == Query(PurlFor(cs[j]).value, cs[j])
    {
      if j > 0 {
        assert cs[..j][1..] == cs[1..][..j - 1];
        assert cs[j] == cs[1..][j - 1];
      }
    }
    forall c | c in cs && TruthyOpt(PurlFor(c)) ensures exists q :: q in qs && q.comp == c {
      var j :| 0 <= j < |cs| && cs[j] == c;
      assert qs[CountUsable(cs[..j])].comp == c;
    }
  }

  /** Queries per request. */
  const ChunkSize: nat := 1000

  /**
   * A slim record without aliases is replaced by the full record fetched by its id, when the
   * fetch returns one.
   */
  function Hydrate(raw: seq<OsvRecord>, fetch: string -> Option<OsvRecord>): (r: seq<OsvRecord>)
    ensures |r| == |raw|
    ensures forall i :: 0 <= i < |raw| && |raw[i].aliases| > 0 ==> r[i] == raw[i]
    ensures forall i :: 0 <= i < |raw| && |raw[i].aliases| == 0 ==> r[i] == fetch(raw[i].id.GetOr("")).GetOr(raw[i])
  {
    if |raw| == 0 then []
    else
      var v := raw[0];
      var h := if |v.aliases| == 0 then fetch(v.id.GetOr("")).GetOr(v) else v;
      [h] + Hydrate(raw[1..], fetch)
  }

  /** Every entry holds at least one vulnerability, all about the component under that key. */
  predicate Attributed(m: map<string, seq<Vulnerability>>) {
    forall k :: k in m ==> |m[k]| > 0 && forall v :: v in m[k] ==> v.componentRef == k
  }

  /** A deduplication step, from a component and its records to its vulnerabilities or a KeyError. */
  type Deduplicator = (Component, seq<OsvRecord>) -> Option<seq<Vulnerability>>

  /** `_deduplicate` under `mode`, as the batch lookup calls it. */
  function Deduper(mode: Mode): Deduplicator {
    (c: Component, rs: seq<OsvRecord>) => Dedup(rs, c, mode)
  }

  /** Every vulnerability a deduplication step returns is about the component it was given. */
  ghost predicate AboutItsComponent(dedup: Deduplicator) {
    forall c, rs :: dedup(c, rs).Some? ==> forall v :: v in dedup(c, rs).value ==> v.componentRef == c.bomRef
  }

  /** What `_deduplicate` returns is about the component it was given. */
  lemma DeduperAboutItsComponent(mode: Mode)
    ensures AboutItsComponent(Deduper(mode))
  {
    forall c, rs | Deduper(mode)(c, rs).Some?
      ensures forall v :: v in Deduper(mode)(c, rs).value ==> v.componentRef == c.bomRef
    {
      assert Deduper(mode)(c, rs) == Dedup(rs, c, mode);
    }
  }

  /** The answer `recs` to query `q`, hydrated and deduplicated, is the entry `vs` under key `k`. */
  predicate Stored(q: Query, recs: seq<OsvRecord>, fetch: string -> Option<OsvRecord>, dedup: Deduplicator,
                   k: string, vs: seq<Vulnerability>) {
    q.comp.bomRef == k && dedup(q.comp, Hydrate(recs, fetch)) == Some(vs)
  }

  /**
   * Some answer from position `n` on of the request whose answers are matched to the queries
   * from `base` is stored as `vs` under `k`.
   */
  predicate FromRequest(qs: seq<Query>, base: nat, results: seq<seq<OsvRecord>>, n: nat,
                        fetch: string -> Option<OsvRecord>, dedup: Deduplicator, k: string, vs: seq<Vulnerability>) {
    exists j :: n <= j < |results| && base + j < |qs| && Stored(qs[base + j], results[j], fetch, dedup, k, vs)
  }

  /** Every answer from position `n` on that hydrates to some record groups without a KeyError. */
  predicate GroupsCleanly(qs: seq<Query>, base: nat, results: seq<seq<OsvRecord>>, n: nat,
                          fetch: string -> Option<OsvRecord>, dedup: Deduplicator) {
    forall j :: n <= j < |results| && base + j < |qs| && |Hydrate(results[j], fetch)| > 0 ==>
      dedup(qs[base + j].comp, Hydrate(results[j], fetch)).Some?
  }

  /** Every answer from position `n` on that deduplicates to at least one vulnerability has its key in `m`. */
  predicate Delivers(qs: seq<Query>, base: nat, results: seq<seq<OsvRecord>>, n: nat,
                     fetch: string -> Option<OsvRecord>, dedup: Deduplicator, m: map<string, seq<Vulnerability>>) {
    forall j ::
      (n <= j < |results| && base + j < |qs| && |Hydrate(results[j], fetch)| > 0
       && dedup(qs[base + j].comp, Hydrate(results[j], fetch)).Some?
       && |dedup(qs[base + j].comp, Hydrate(results[j], fetch)).value| > 0) ==>
      qs[base + j].comp.bomRef in m
  }

  /**
   * The answers of one request from position `n` on, matched to queries by position from
   * `base`. An answer with no query, or with no records, is skipped; a KeyError in the grouping
   * abandons the rest of the request, keeping what was stored so far.
   */
  function StoreFrom(qs: seq<Query>, base: nat, results: seq<seq<OsvRecord>>, n: nat,
                     fetch: string -> Option<OsvRecord>, dedup: Deduplicator,
                     acc: map<string, seq<Vulnerability>>): (r: map<string, seq<Vulnerability>>)
    requires n <= |results| && Attributed(acc) && AboutItsComponent(dedup)
    ensures Attributed(r)
    ensures acc.Keys <= r.Keys
    ensures forall k :: k in r ==> (k in acc && r[k] == acc[k]) || FromRequest(qs, base, results, n, fetch, dedup, k, r[k])
    ensures GroupsCleanly(qs, base, results, n, fetch, dedup) ==> Delivers(qs, base, results, n, fetch, dedup, r)
    decreases |results| - n
  {
    if n == |results| then acc
    else if base + n >= |qs| then StoreFrom(qs, base, results, n + 1, fetch, dedup, acc)
    else
      var comp := qs[base + n].comp;
      var hydrated := Hydrate(results[n], fetch);
      if |hydrated| == 0 then StoreFrom(qs, base, results, n + 1, fetch, dedup, acc)
      else
        match dedup(comp, hydrated)
        case None => acc
        case Some(vs) =>
          var acc' := if |vs| > 0 then acc[comp.bomRef := vs] else acc;
          var r := StoreFrom(qs, base, results, n + 1, fetch, dedup, acc');
          StoreStep(qs, base, results, n, fetch, dedup, acc, acc', r);
          r
  }

  /** An entry stored at position `n` and not replaced later is the answer at `n`. */
  lemma StoreStep(qs: seq<Query>, base: nat, results: seq<seq<OsvRecord>>, n: nat, fetch: string -> Option<OsvRecord>,
                  dedup: Deduplicator, acc: map<string, seq<Vulnerability>>, acc': map<string, seq<Vulnerability>>,
                  r: map<string, seq<Vulnerability>>)
    requires n < |results| && base + n < |qs|
    requires dedup(qs[base + n].comp, Hydrate(results[n], fetch)).Some?
    requires var vs := dedup(qs[base + n].comp, Hydrate(results[n], fetch)).value;
      acc' == if |vs| > 0 then acc[qs[base + n].comp.bomRef := vs] else acc
    requires forall k :: k in r ==> (k in acc' && r[k] == acc'[k]) || FromRequest(qs, base, results, n + 1, fetch, dedup, k, r[k])
    ensures forall k :: k in r ==> (k in acc && r[k] == acc[k]) || FromRequest(qs, base, results, n, fetch, dedup, k, r[k])
  {
    forall k | k in r && !(k in acc && r[k] == acc[k])
      ensures FromRequest(qs, base, results, n, fetch, dedup, k, r[k])
    {
      if k in acc' && r[k] == acc'[k] {
        assert Stored(qs[base + n], results[n], fetch, dedup, k, r[k]);
      }
    }
  }

  /**
   * The answers of one request, matched to queries by position from `base`. Every entry is kept
   * from `acc` or is the deduplicated answer to a query of this request with that key; when no
   * answer raises in the grouping, every answer with a vulnerability has an entry.
   */
  function StoreResults(qs: seq<Query>, base: nat, results: seq<seq<OsvRecord>>,
                        fetch: string -> Option<OsvRecord>, dedup: Deduplicator,
                        acc: map<string, seq<Vulnerability>>): (r: map<string, seq<Vulnerability>>)
    requires Attributed(acc) && AboutItsComponent(dedup)
    ensures Attributed(r)
    ensures acc.Keys <= r.Keys
    ensures forall k :: k in r ==> (k in acc && r[k] == acc[k]) || FromRequest(qs, base, results, 0, fetch, dedup, k, r[k])
    ensures GroupsCleanly(qs, base, results, 0, fetch, dedup) ==> Delivers(qs, base, results, 0, fetch, dedup, r)
  {
    StoreFrom(qs, base, results, 0, fetch, dedup, acc)
  }

  /** The request that starts at query `i`: the PURLs of up to `ChunkSize` queries. */
  function ChunkPurls(qs: seq<Query>, i: nat): (ps: seq<string>)
    requires i < |qs|
    ensures |ps| == if i + ChunkSize <= |qs| then ChunkSize else |qs| - i
    ensures forall j :: 0 <= j < |ps| ==> ps[j] == qs[i + j].purl
  {
    var chunk := qs[i..if i + ChunkSize <= |qs| then i + ChunkSize else |qs|];
    seq(|chunk|, j requires 0 <= j < |chunk| => chunk[j].purl)
  }

  /** The query index at which the `m`-th request from `i` starts. */
  function ChunkStart(i: nat, m: nat): nat {
    i + m * ChunkSize
  }

  /** The answer to the request starting at query `s`, or `None` if it failed or `s` is past the end. */
  function Response(qs: seq<Query>, s: nat, respond: seq<string> -> Option<seq<seq<OsvRecord>>>): Option<seq<seq<OsvRecord>>> {
    if s < |qs| then respond(ChunkPurls(qs, s)) else None
  }

  /** Some answered request from `i` on has an answer stored as `vs` under `k`. */
  ghost predicate Answered(qs: seq<Query>, i: nat, respond: seq<string> -> Option<seq<seq<OsvRecord>>>,
                           fetch: string -> Option<OsvRecord>, dedup: Deduplicator, k: string, vs: seq<Vulnerability>) {
    exists m: nat :: Response(qs, ChunkStart(i, m), respond).Some?
      && FromRequest(qs, ChunkStart(i, m), Response(qs, ChunkStart(i, m), respond).value, 0, fetch, dedup, k, vs)
  }

  /** Every request from `i` on is answered, and no answer raises in the grouping. */
  ghost predicate AllClean(qs: seq<Query>, i: nat, respond: seq<string> -> Option<seq<seq<OsvRecord>>>,
                           fetch: string -> Option<OsvRecord>, dedup: Deduplicator) {
    forall m: nat :: ChunkStart(i, m) < |qs| ==>
      Response(qs, ChunkStart(i, m), respond).Some?
      && GroupsCleanly(qs, ChunkStart(i, m), Response(qs, ChunkStart(i, m), respond).value, 0, fetch, dedup)
  }

  /** Every answer of every answered request from `i` on that has a vulnerability has its key in `r`. */
  ghost predicate AllDelivered(qs: seq<Query>, i: nat, respond: seq<string> -> Option<seq<seq<OsvRecord>>>,
                               fetch: string -> Option<OsvRecord>, dedup: Deduplicator, r: map<string, seq<Vulnerability>>) {
    forall m: nat :: Response(qs, ChunkStart(i, m), respond).Some? ==>
      Delivers(qs, ChunkStart(i, m), Response(qs, ChunkStart(i, m), respond).value, 0, fetch, dedup, r)
  }

  /**
   * The requests from query `i` on, `ChunkSize` queries each; a failed request is skipped. Every
   * entry is kept from `acc` or is the deduplicated answer to a query with that key.
   */
  function LookupFrom(qs: seq<Query>, i: nat, respond: seq<string> -> Option<seq<seq<OsvRecord>>>,
                      fetch: string -> Option<OsvRecord>, dedup: Deduplicator,
                      acc: map<string, seq<Vulnerability>>): (r: map<string, seq<Vulnerability>>)
    requires Attributed(acc) && AboutItsComponent(dedup)
    ensures Attributed(r)
    ensures acc.Keys <= r.Keys
    ensures forall k :: k in r ==> (k in acc && r[k] == acc[k]) || Answered(qs, i, respond, fetch, dedup, k, r[k])
    ensures AllClean(qs, i, respond, fetch, dedup) ==> AllDelivered(qs, i, respond, fetch, dedup, r)
    decreases |qs| - i
  {
    if i >= |qs| then
      assert forall m: nat :: Response(qs, ChunkStart(i, m), respond).None?;
      acc
    else
      var acc' := match respond(ChunkPurls(qs, i))
        case None => acc
        case Some(results) => StoreResults(qs, i, results, fetch, dedup, acc);
      var r := LookupFrom(qs, i + ChunkSize, respond, fetch, dedup, acc');
      LookupShift(qs, i, respond, fetch, dedup, acc, acc', r);
      r
  }

  /** What the requests from `i + ChunkSize` give, together with the request at `i`, holds from `i`. */
  lemma LookupShift(qs: seq<Query>, i: nat, respond: seq<string> -> Option<seq<seq<OsvRecord>>>,
                    fetch: string -> Option<OsvRecord>, dedup: Deduplicator,
                    acc: map<string, seq<Vulnerability>>, acc': map<string, seq<Vulnerability>>,
                    r: map<string, seq<Vulnerability>>)
    requires i < |qs| && Attributed(acc) && AboutItsComponent(dedup)
    requires respond(ChunkPurls(qs, i)).None? ==> acc' == acc
    requires respond(ChunkPurls(qs, i)).Some? ==>
      acc' == StoreResults(qs, i, respond(ChunkPurls(qs, i)).value, fetch, dedup, acc)
    requires acc'.Keys <= r.Keys
    requires forall k :: k in r ==> (k in acc' && r[k] == acc'[k]) || Answered(qs, i + ChunkSize, respond, fetch, dedup, k, r[k])
    requires AllClean(qs, i + ChunkSize, respond, fetch, dedup) ==> AllDelivered(qs, i + ChunkSize, respond, fetch, dedup, r)
    ensures forall k :: k in r ==> (k in acc && r[k] == acc[k]) || Answered(qs, i, respond, fetch, dedup, k, r[k])
    ensures AllClean(qs, i, respond, fetch, dedup) ==> AllDelivered(qs, i, respond, fetch, dedup, r)
  {
    assert ChunkStart(i, 0) == i;
    forall k | k in r && !(k in acc && r[k] == acc[k])
      ensures Answered(qs, i, respond, fetch, dedup, k, r[k])
    {
      if !(k in acc' && r[k] == acc'[k]) {
        var m: nat :| Response(qs, ChunkStart(i + ChunkSize, m), respond).Some?
          && FromRequest(qs, ChunkStart(i + ChunkSize, m), Response(qs, ChunkStart(i + ChunkSize, m), respond).value, 0, fetch, dedup, k, r[k]);
        assert ChunkStart(i + ChunkSize, m) == ChunkStart(i, m + 1);
      }
    }
    if AllClean(qs, i, respond, fetch, dedup) {
      var next := i + ChunkSize;
      assert AllClean(qs, next, respond, fetch, dedup) by {
        forall m: nat | ChunkStart(next, m) < |qs|
          ensures Response(qs, ChunkStart(next, m), respond).Some?
          ensures GroupsCleanly(qs, ChunkStart(next, m), Response(qs, ChunkStart(next, m), respond).value, 0, fetch, dedup)
        {
          assert ChunkStart(next, m) == ChunkStart(i, m + 1);
        }
      }
      forall m: nat | Response(qs, ChunkStart(i, m), respond).Some?
        ensures Delivers(qs, ChunkStart(i, m), Response(qs, ChunkStart(i, m), respond).value, 0, fetch, dedup, r)
      {
        if m == 0 {
          DeliversGrows(qs, i, respond(ChunkPurls(qs, i)).value, fetch, dedup, acc', r);
        } else {
          assert ChunkStart(i, m) == ChunkStart(i + ChunkSize, m - 1);
        }
      }
    }
  }

  /** Delivery survives adding keys. */
  lemma DeliversGrows(qs: seq<Query>, base: nat, results: seq<seq<OsvRecord>>, fetch: string -> Option<OsvRecord>,
                      dedup: Deduplicator, m: map<string, seq<Vulnerability>>, m': map<string, seq<Vulnerability>>)
    requires Delivers(qs, base, results, 0, fetch, dedup, m) && m.Keys <= m'.Keys
    ensures Delivers(qs, base, results, 0, fetch, dedup, m')
  {
  }

  /** An entry that some answer stores is under the key of a query that was sent. */
  lemma AnsweredQuery(qs: seq<Query>, respond: seq<string> -> Option<seq<seq<OsvRecord>>>,
                      fetch: string -> Option<OsvRecord>, dedup: Deduplicator, k: string, vs: seq<Vulnerability>)
    returns (q: Query)
    requires Answered(qs, 0, respond, fetch, dedup, k, vs)
    ensures q in qs && q.comp.bomRef == k
  {
    var m: nat :| Response(qs, ChunkStart(0, m), respond).Some?
      && FromRequest(qs, ChunkStart(0, m), Response(qs, ChunkStart(0, m), respond).value, 0, fetch, dedup, k, vs);
    var results := Response(qs, ChunkStart(0, m), respond).value;
    var j :| 0 <= j < |results| && ChunkStart(0, m) + j < |qs|
      && Stored(qs[ChunkStart(0, m) + j], results[j], fetch, dedup, k, vs);
    q := qs[ChunkStart(0, m) + j];
  }

  /**
   * `batch_lookup_by_purl`, with the batch endpoint as `respond` (the result lists for a list
   * of PURLs, or `None` for a failed request) and the by-id endpoint as `fetch`. Every key is
   * the bom-ref of a queried component, and its entry is the deduplicated answer to a query for
   * that component; when every request is answered and no answer raises in the grouping, every
   * answer with a vulnerability has an entry.
   */
  function BatchLookupByPurl(cs: seq<Component>, respond: seq<string> -> Option<seq<seq<OsvRecord>>>,
                             fetch: string -> Option<OsvRecord>, mode: Mode): (r: map<string, seq<Vulnerability>>)
    ensures Attributed(r)
    ensures forall k :: k in r ==> exists c :: c in cs && c.bomRef == k && TruthyOpt(PurlFor(c))
    ensures forall k :: k in r ==> Answered(BuildQueries(cs), 0, respond, fetch, Deduper(mode), k, r[k])
    ensures AllClean(BuildQueries(cs), 0, respond, fetch, Deduper(mode)) ==>
      AllDelivered(BuildQueries(cs), 0, respond, fetch, Deduper(mode), r)
  {
    var qs := BuildQueries(cs);
    DeduperAboutItsComponent(mode);
    if |qs| == 0 then
      assert forall m: nat :: Response(qs, ChunkStart(0, m), respond).None?;
      map[]
    else
      var r := LookupFrom(qs, 0, respond, fetch, Deduper(mode), map[]);
      forall k | k in r ensures exists c :: c in cs && c.bomRef == k && TruthyOpt(PurlFor(c)) {
        var q := AnsweredQuery(qs, respond, fetch, Deduper(mode), k, r[k]);
      }
      r
  }
}
