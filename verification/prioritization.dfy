/**
 * The analysis pipeline of `PrioritizationService.analyze`: enrich every vulnerability with its
 * metrics, weight and score them, keep the best finding per component, sort, derive the
 * thresholds and assign a priority to each kept finding.
 */
module Prioritization {
  import opened Wrappers
  import opened Strings
  import opened Numerics
  import opened Entities
  import opened Sbom
  import opened HdfmModel
  import opened GraphAnalyzer

  /** The threat-intelligence lookups by advisory id: EPSS probability and KEV membership. */
  datatype ThreatIntel = ThreatIntel(epss: string -> real, kev: string -> bool)

  // ----- step 2: collect and enrich -----

  /** `tcs_scores.get(ref, 0.0)`. */
  function TcsOf(tcs: map<string, real>, ref: string): real {
    if ref in tcs then tcs[ref] else 0.0
  }

  /**
   * A vulnerability of component `c` with its four metric inputs filled in: the component's TCS,
   * the VEI of its vector, its EPSS and KEV status, and their fusion. Nothing else changes.
   */
  function Enrich(v: Vulnerability, c: Component, tcs: map<string, real>, intel: ThreatIntel): (e: Vulnerability)
    ensures e.(tcs := v.tcs, vei := v.vei, epss := v.epss, kev := v.kev, exploitability := v.exploitability) == v
    ensures e.tcs == TcsOf(tcs, c.bomRef) && e.vei == CalculateVei(v.cvssVector)
    ensures e.epss == intel.epss(v.id) && e.kev == intel.kev(v.id)
    ensures e.exploitability == CalculateExploitabilityFusion(e.epss, e.kev)
  {
    var epss := intel.epss(v.id);
    var kev := intel.kev(v.id);
    v.(tcs := TcsOf(tcs, c.bomRef), vei := CalculateVei(v.cvssVector), epss := epss, kev := kev,
       exploitability := CalculateExploitabilityFusion(epss, kev))
  }

  function EnrichAll(vs: seq<Vulnerability>, c: Component, tcs: map<string, real>, intel: ThreatIntel): (r: seq<Vulnerability>)
    ensures |r| == |vs| && forall i :: 0 <= i < |vs| ==> r[i] == Enrich(vs[i], c, tcs, intel)
  {
    if |vs| == 0 then [] else [Enrich(vs[0], c, tcs, intel)] + EnrichAll(vs[1..], c, tcs, intel)
  }

  /** The status a component without vulnerabilities reports. */
  function Status(c: Component): string {
    if c.isDeprecated then "DEPRECATED" else "HEALTHY"
  }

  /**
   * The placeholder finding that stands for a component without vulnerabilities: id DEPRECATED
   * or HEALTHY, every metric and the CVSS score 0, severity "INFO" coerced to 0, and no
   * enrichment.
   */
  function Placeholder(c: Component): (v: Vulnerability)
    ensures v.id == "DEPRECATED" <==> c.isDeprecated
    ensures v.id == "HEALTHY" <==> !c.isDeprecated
    ensures v.description == "Component is " + (if c.isDeprecated then "deprecated" else "healthy")
    ensures v.componentRef == c.bomRef && v.componentName == c.name
    ensures v.cvssScore == 0.0 && v.cvssVector == "" && v.severity == 0.0
    ensures v.tcs == 0.0 && v.vei == 0.0 && v.epss == 0.0 && !v.kev && v.exploitability == 0.0
  {
    var status := Status(c);
    InfoCoercesToZero();
    StatusLowered(c);
    NewVulnerability(status, c.bomRef, c.name, Number(0.0), "", "Component is " + Lower(status), Text("INFO"))
  }

  lemma StatusLowered(c: Component)
    ensures Lower(Status(c)) == (if c.isDeprecated then "deprecated" else "healthy")
  {
    var l := Lower(Status(c));
    if c.isDeprecated {
      assert l == "deprecated";
    } else {
      assert l == "healthy";
    }
  }

  /** What one component contributes: its enriched vulnerabilities, or one placeholder. */
  function Contribution(c: Component, tcs: map<string, real>, intel: ThreatIntel): (r: seq<Vulnerability>)
    ensures |r| >= 1
    ensures |c.vulnerabilities| == 0 ==> r == [Placeholder(c)]
    ensures |c.vulnerabilities| > 0 ==> |r| == |c.vulnerabilities|
    ensures |c.vulnerabilities| > 0 ==> forall i :: 0 <= i < |r| ==> r[i] == Enrich(c.vulnerabilities[i], c, tcs, intel)
  {
    if |c.vulnerabilities| > 0 then EnrichAll(c.vulnerabilities, c, tcs, intel) else [Placeholder(c)]
  }

  /**
   * Every component's contribution, in component order. Each component contributes at least
   * one entry, so the list is empty exactly when there are no components.
   */
  function CollectVulns(cs: seq<Component>, tcs: map<string, real>, intel: ThreatIntel): (r: seq<Vulnerability>)
    ensures |cs| <= |r|
    ensures |r| == 0 <==> |cs| == 0
  {
    if |cs| == 0 then [] else Contribution(cs[0], tcs, intel) + CollectVulns(cs[1..], tcs, intel)
  }

  /** Collecting from two lists of components collects from each and concatenates, in order. */
  lemma {:induction false} CollectVulnsAppend(a: seq<Component>, b: seq<Component>, tcs: map<string, real>,
                                              intel: ThreatIntel)
    ensures CollectVulns(a + b, tcs, intel) == CollectVulns(a, tcs, intel) + CollectVulns(b, tcs, intel)
    decreases |a|
  {
    if |a| > 0 {
      assert (a + b)[1..] == a[1..] + b;
      CollectVulnsAppend(a[1..], b, tcs, intel);
    } else {
      assert a + b == b;
    }
  }

  /** A single component contributes exactly its own findings. */
  lemma CollectVulnsSingle(c: Component, tcs: map<string, real>, intel: ThreatIntel)
    ensures CollectVulns([c], tcs, intel) == Contribution(c, tcs, intel)
  {
    assert [c][1..] == [];
  }

  // ----- steps 3 to 5: weights, baseline, scores -----

  /** The metrics table, one row per vulnerability. */
  function Rows(vs: seq<Vulnerability>): (rows: seq<MetricRow>)
    ensures |rows| == |vs|
    ensures forall i :: 0 <= i < |vs| ==>
      rows[i] == MetricRow(vs[i].severity, vs[i].tcs, vs[i].vei, vs[i].exploitability)
  {
    if |vs| == 0 then [] else [MetricRow(vs[0].severity, vs[0].tcs, vs[0].vei, vs[0].exploitability)] + Rows(vs[1..])
  }

  /** The HDFM score of `v`, clipped to at most 1.0. */
  function ClippedScore(v: Vulnerability, w: map<string, real>, eta: real): (s: real)
    ensures s <= 1.0
    ensures s == 1.0 || s == CalculateHdfmScore(v, w, eta)
    ensures CalculateHdfmScore(v, w, eta) <= 1.0 ==> s == CalculateHdfmScore(v, w, eta)
  {
    MinReal(CalculateHdfmScore(v, w, eta), 1.0)
  }

  /** Every vulnerability with its clipped score set; nothing else changes. */
  function ScoreAll(vs: seq<Vulnerability>, w: map<string, real>, eta: real): (r: seq<Vulnerability>)
    ensures |r| == |vs|
    ensures forall i :: 0 <= i < |vs| ==> r[i] == vs[i].(hdfmScore := ClippedScore(vs[i], w, eta))
    ensures forall i :: 0 <= i < |r| ==> r[i].hdfmScore <= 1.0
  {
    if |vs| == 0 then [] else [vs[0].(hdfmScore := ClippedScore(vs[0], w, eta))] + ScoreAll(vs[1..], w, eta)
  }

  /** A placeholder scores 0 whatever the weights: all its metrics are 0. */
  lemma PlaceholderScoresZero(c: Component, w: map<string, real>, eta: real)
    ensures CalculateHdfmScore(Placeholder(c), w, eta) == 0.0
    ensures ClippedScore(Placeholder(c), w, eta) == 0.0
  {
    var v := Placeholder(c);
    assert BaseScore(v, w) == 0.0;
  }

  // ----- keeping the best finding per component -----

  /** The component names of a list of findings. */
  function Names(vs: seq<Vulnerability>): (ns: seq<string>)
    ensures |ns| == |vs| && forall i :: 0 <= i < |vs| ==> ns[i] == vs[i].componentName
  {
    if |vs| == 0 then [] else [vs[0].componentName] + Names(vs[1..])
  }

  /** The findings at the given indices, in index-list order. */
  function Pick(vs: seq<Vulnerability>, ws: seq<nat>): (r: seq<Vulnerability>)
    requires forall i :: 0 <= i < |ws| ==> ws[i] < |vs|
    ensures |r| == |ws| && forall i :: 0 <= i < |ws| ==> r[i] == vs[ws[i]]
  {
    if |ws| == 0 then [] else [vs[ws[0]]] + Pick(vs, ws[1..])
  }

  /**
   * Among the first `len` findings, `vs[k]` is the one its component keeps: no earlier finding
   * of the same component name scores as high, and no later one scores higher. The first of the
   * top-scoring findings wins.
   */
  predicate IsWinner(vs: seq<Vulnerability>, len: nat, k: nat)
    requires k < len <= |vs|
  {
    forall j :: 0 <= j < len && vs[j].componentName == vs[k].componentName ==>
      (j < k ==> vs[j].hdfmScore < vs[k].hdfmScore) && (k < j ==> vs[j].hdfmScore <= vs[k].hdfmScore)
  }

  /** The slot of an index table whose finding carries `name`, if any. */
  function FindName(vs: seq<Vulnerability>, ws: seq<nat>, name: string): (r: Option<nat>)
    requires forall i :: 0 <= i < |ws| ==> ws[i] < |vs|
    ensures r.None? ==> forall i :: 0 <= i < |ws| ==> vs[ws[i]].componentName != name
    ensures r.Some? ==> r.value < |ws| && vs[ws[r.value]].componentName == name
  {
    if |ws| == 0 then None
    else if vs[ws[|ws| - 1]].componentName == name then Some(|ws| - 1)
    else FindName(vs, ws[..|ws| - 1], name)
  }

  /**
   * `ws` holds the winners among the first `len` findings: one slot per component name seen so
   * far, and every name seen has its slot.
   */
  predicate WinnerTable(vs: seq<Vulnerability>, len: nat, ws: seq<nat>)
    requires len <= |vs|
  {
    && (forall i :: 0 <= i < |ws| ==> ws[i] < len && IsWinner(vs, len, ws[i]))
    && (forall i, j :: 0 <= i < j < |ws| ==> vs[ws[i]].componentName != vs[ws[j]].componentName)
    && Covers(vs, len, ws)
  }

  /** Every name among the first `len` findings has a slot in `ws`. */
  predicate Covers(vs: seq<Vulnerability>, len: nat, ws: seq<nat>)
    requires len <= |vs| && forall i :: 0 <= i < |ws| ==> ws[i] < |vs|
  {
    forall k {:trigger FindName(vs, ws, vs[k].componentName)} ::
      0 <= k < len ==> FindName(vs, ws, vs[k].componentName).Some?
  }

  /**
   * The `max_vuln_map` loop over the first `len` findings, on indices: the first finding of a
   * name opens its slot, and a later one replaces the slot's winner only when it scores strictly
   * higher.
   */
  function WinnersUpTo(vs: seq<Vulnerability>, len: nat): (ws: seq<nat>)
    requires len <= |vs|
    ensures forall i :: 0 <= i < |ws| ==> ws[i] < len
  {
    if len == 0 then [] else Upsert(vs, WinnersUpTo(vs, len - 1), len - 1)
  }

  /** The loop keeps the table invariant at every length. */
  lemma {:induction false} WinnersUpToTable(vs: seq<Vulnerability>, len: nat)
    requires len <= |vs|
    ensures WinnerTable(vs, len, WinnersUpTo(vs, len)) && |WinnersUpTo(vs, len)| <= len
  {
    if len == 0 {
      assert WinnersUpTo(vs, len) == [];
    } else {
      var n := len - 1;
      WinnersUpToTable(vs, n);
      WinnerStep(vs, n);
      assert n + 1 == len;
    }
  }

  /** One iteration of the loop, for the finding at index `n`. */
  function Upsert(vs: seq<Vulnerability>, ws: seq<nat>, n: nat): (r: seq<nat>)
    requires n < |vs|
    requires forall i :: 0 <= i < |ws| ==> ws[i] < n
    ensures forall i :: 0 <= i < |r| ==> r[i] <= n
  {
    match FindName(vs, ws, vs[n].componentName)
    case None => ws + [n]
    case Some(i) => if vs[n].hdfmScore > vs[ws[i]].hdfmScore then ws[i := n] else ws
  }

  lemma WinnerStep(vs: seq<Vulnerability>, n: nat)
    requires n < |vs| && WinnerTable(vs, n, WinnersUpTo(vs, n)) && |WinnersUpTo(vs, n)| <= n
    ensures WinnerTable(vs, n + 1, WinnersUpTo(vs, n + 1)) && |WinnersUpTo(vs, n + 1)| <= n + 1
  {
    var ws := WinnersUpTo(vs, n);
    var next := Upsert(vs, ws, n);
    assert WinnersUpTo(vs, n + 1) == next;
    var f := FindName(vs, ws, vs[n].componentName);
    if f.None? {
      assert next == ws + [n];
      StepNew(vs, n, ws);
    } else if vs[n].hdfmScore > vs[ws[f.value]].hdfmScore {
      assert next == ws[f.value := n];
      StepReplace(vs, n, ws, f.value);
    } else {
      assert next == ws;
      StepKeep(vs, n, ws, f.value);
    }
  }

  /** A winner stays a winner unless the next finding shares its name and beats it. */
  lemma StillWinner(vs: seq<Vulnerability>, n: nat, k: nat)
    requires k < n < |vs| && IsWinner(vs, n, k)
    requires vs[n].componentName != vs[k].componentName || vs[n].hdfmScore <= vs[k].hdfmScore
    ensures IsWinner(vs, n + 1, k)
  {
  }

  /** Tables whose slots carry the same names find the same names. */
  lemma {:induction false} FindSameNames(vs: seq<Vulnerability>, ws: seq<nat>, r: seq<nat>, name: string)
    requires |r| == |ws|
    requires forall i :: 0 <= i < |ws| ==> ws[i] < |vs| && r[i] < |vs| && vs[r[i]].componentName == vs[ws[i]].componentName
    ensures FindName(vs, r, name).Some? == FindName(vs, ws, name).Some?
  {
    if |ws| > 0 {
      FindSameNames(vs, ws[..|ws| - 1], r[..|r| - 1], name);
    }
  }

  /** The next finding's name is new: it opens a slot of its own. */
  lemma StepNew(vs: seq<Vulnerability>, n: nat, ws: seq<nat>)
    requires n < |vs| && WinnerTable(vs, n, ws)
    requires FindName(vs, ws, vs[n].componentName).None?
    ensures WinnerTable(vs, n + 1, ws + [n])
  {
    var r := ws + [n];
    NewNameIsFresh(vs, n, ws);
    NewSlotWinners(vs, n, ws);
    NewSlotCovers(vs, n, ws);
    assert forall i, j :: 0 <= i < j < |r| ==> vs[r[i]].componentName != vs[r[j]].componentName;
  }

  /** A name the table does not hold has not occurred before. */
  lemma NewNameIsFresh(vs: seq<Vulnerability>, n: nat, ws: seq<nat>)
    requires n < |vs| && WinnerTable(vs, n, ws)
    requires FindName(vs, ws, vs[n].componentName).None?
    ensures forall j :: 0 <= j < n ==> vs[j].componentName != vs[n].componentName
  {
    forall j | 0 <= j < n ensures vs[j].componentName != vs[n].componentName {
      assert FindName(vs, ws, vs[j].componentName).Some?;
    }
  }

  /** With a fresh name, the old winners and the new finding are the winners one step on. */
  lemma NewSlotWinners(vs: seq<Vulnerability>, n: nat, ws: seq<nat>)
    requires n < |vs| && WinnerTable(vs, n, ws)
    requires forall j :: 0 <= j < n ==> vs[j].componentName != vs[n].componentName
    ensures forall i :: 0 <= i < |ws + [n]| ==> (ws + [n])[i] < n + 1 && IsWinner(vs, n + 1, (ws + [n])[i])
  {
    forall a | 0 <= a < |ws| ensures IsWinner(vs, n + 1, ws[a]) {
      StillWinner(vs, n, ws[a]);
    }
    assert IsWinner(vs, n + 1, n);
  }

  /** The extended table finds every name seen so far, the new one included. */
  lemma NewSlotCovers(vs: seq<Vulnerability>, n: nat, ws: seq<nat>)
    requires n < |vs| && (forall i :: 0 <= i < |ws| ==> ws[i] < |vs|) && Covers(vs, n, ws)
    ensures Covers(vs, n + 1, ws + [n])
  {
    var r := ws + [n];
    assert r[..|ws|] == ws;
    forall k | 0 <= k < n + 1 ensures FindName(vs, r, vs[k].componentName).Some? {
      if k < n {
        assert FindName(vs, ws, vs[k].componentName).Some?;
      }
    }
  }

  /** The next finding beats its name's winner and takes over the slot. */
  lemma StepReplace(vs: seq<Vulnerability>, n: nat, ws: seq<nat>, i: nat)
    requires n < |vs| && WinnerTable(vs, n, ws)
    requires i < |ws| && vs[ws[i]].componentName == vs[n].componentName
    requires vs[n].hdfmScore > vs[ws[i]].hdfmScore
    ensures WinnerTable(vs, n + 1, ws[i := n])
  {
    var r := ws[i := n];
    ReplacedSlotWinners(vs, n, ws, i);
    assert FindName(vs, ws, vs[ws[i]].componentName).Some?;
    ReplacedSlotCovers(vs, n, ws, r);
    assert forall a :: 0 <= a < |r| ==> r[a] < n + 1 && IsWinner(vs, n + 1, r[a]);
    assert forall a, b :: 0 <= a < b < |r| ==> vs[r[a]].componentName != vs[r[b]].componentName;
  }

  /** The other winners survive, and the new finding is its name's winner. */
  lemma ReplacedSlotWinners(vs: seq<Vulnerability>, n: nat, ws: seq<nat>, i: nat)
    requires n < |vs| && WinnerTable(vs, n, ws)
    requires i < |ws| && vs[ws[i]].componentName == vs[n].componentName
    requires vs[n].hdfmScore > vs[ws[i]].hdfmScore
    ensures forall a :: 0 <= a < |ws| && a != i ==> IsWinner(vs, n + 1, ws[a])
    ensures IsWinner(vs, n + 1, n)
  {
    forall a | 0 <= a < |ws| && a != i ensures IsWinner(vs, n + 1, ws[a]) {
      StillWinner(vs, n, ws[a]);
    }
    forall j | 0 <= j < n && vs[j].componentName == vs[n].componentName
      ensures vs[j].hdfmScore < vs[n].hdfmScore
    {
      assert IsWinner(vs, n, ws[i]);
    }
  }

  /** A table whose slots carry the same names as a complete one finds every name seen so far. */
  lemma ReplacedSlotCovers(vs: seq<Vulnerability>, n: nat, ws: seq<nat>, r: seq<nat>)
    requires n < |vs| && (forall i :: 0 <= i < |ws| ==> ws[i] < |vs|) && Covers(vs, n, ws)
    requires |r| == |ws| && forall a :: 0 <= a < |ws| ==> r[a] < |vs| && vs[r[a]].componentName == vs[ws[a]].componentName
    requires FindName(vs, ws, vs[n].componentName).Some?
    ensures Covers(vs, n + 1, r)
  {
    forall k | 0 <= k < n + 1 ensures FindName(vs, r, vs[k].componentName).Some? {
      FindSameNames(vs, ws, r, vs[k].componentName);
      if k < n {
        assert FindName(vs, ws, vs[k].componentName).Some?;
      }
    }
  }

  /** The next finding does not beat its name's winner: the table stays as it is. */
  lemma StepKeep(vs: seq<Vulnerability>, n: nat, ws: seq<nat>, i: nat)
    requires n < |vs| && WinnerTable(vs, n, ws)
    requires i < |ws| && vs[ws[i]].componentName == vs[n].componentName
    requires vs[n].hdfmScore <= vs[ws[i]].hdfmScore
    ensures WinnerTable(vs, n + 1, ws)
  {
    forall a | 0 <= a < |ws| ensures IsWinner(vs, n + 1, ws[a]) {
      StillWinner(vs, n, ws[a]);
    }
    forall k | 0 <= k < n + 1 ensures FindName(vs, ws, vs[k].componentName).Some? {
      if k == n {
        assert FindName(vs, ws, vs[ws[i]].componentName).Some?;
      }
    }
  }

  /** The winner indices of the whole list. */
  function WinnerIndices(vs: seq<Vulnerability>): (ws: seq<nat>)
    ensures WinnerTable(vs, |vs|, ws)
    ensures |ws| <= |vs|
  {
    WinnersUpToTable(vs, |vs|);
    WinnersUpTo(vs, |vs|)
  }

  /** There is only one winner per component name. */
  lemma WinnerUnique(vs: seq<Vulnerability>, k1: nat, k2: nat)
    requires k1 < |vs| && k2 < |vs| && IsWinner(vs, |vs|, k1) && IsWinner(vs, |vs|, k2)
    requires vs[k1].componentName == vs[k2].componentName
    ensures k1 == k2
  {
  }

  /** Every winner of the list has its slot in the table. */
  lemma WinnersAreKept(vs: seq<Vulnerability>, k: nat)
    requires k < |vs| && IsWinner(vs, |vs|, k)
    ensures k in WinnerIndices(vs)
  {
    var ws := WinnerIndices(vs);
    var i := FindName(vs, ws, vs[k].componentName).value;
    WinnerUnique(vs, ws[i], k);
  }

  /**
   * `list(max_vuln_map.values())`: one finding per component name, the first of those with the
   * highest score, every name of the input represented.
   */
  function KeepBest(vs: seq<Vulnerability>): (r: seq<Vulnerability>)
    ensures r == Pick(vs, WinnerIndices(vs))
    ensures |r| <= |vs|
    ensures forall i :: 0 <= i < |r| ==> r[i] in vs
    ensures forall i, j :: 0 <= i < j < |r| ==> r[i].componentName != r[j].componentName
    ensures forall i, j :: 0 <= i < |r| && 0 <= j < |vs| && vs[j].componentName == r[i].componentName ==>
      vs[j].hdfmScore <= r[i].hdfmScore
    ensures forall k :: 0 <= k < |vs| ==> vs[k].componentName in Names(r)
  {
    var ws := WinnerIndices(vs);
    KeptFromInput(vs, ws);
    KeptAreBest(vs, ws);
    KeptCoverNames(vs, ws);
    Pick(vs, ws)
  }

  lemma KeptFromInput(vs: seq<Vulnerability>, ws: seq<nat>)
    requires WinnerTable(vs, |vs|, ws) && |ws| <= |vs|
    ensures |Pick(vs, ws)| <= |vs|
    ensures forall i :: 0 <= i < |ws| ==> Pick(vs, ws)[i] in vs
    ensures forall i, j :: 0 <= i < j < |ws| ==> Pick(vs, ws)[i].componentName != Pick(vs, ws)[j].componentName
  {
  }

  lemma KeptAreBest(vs: seq<Vulnerability>, ws: seq<nat>)
    requires WinnerTable(vs, |vs|, ws)
    ensures forall i, j :: 0 <= i < |ws| && 0 <= j < |vs| && vs[j].componentName == Pick(vs, ws)[i].componentName ==>
      vs[j].hdfmScore <= Pick(vs, ws)[i].hdfmScore
  {
    var r := Pick(vs, ws);
    forall i, j | 0 <= i < |ws| && 0 <= j < |vs| && vs[j].componentName == r[i].componentName
      ensures vs[j].hdfmScore <= r[i].hdfmScore
    {
      assert IsWinner(vs, |vs|, ws[i]);
    }
  }

  lemma KeptCoverNames(vs: seq<Vulnerability>, ws: seq<nat>)
    requires WinnerTable(vs, |vs|, ws)
    ensures forall k :: 0 <= k < |vs| ==> vs[k].componentName in Names(Pick(vs, ws))
  {
    var r := Pick(vs, ws);
    forall k | 0 <= k < |vs| ensures vs[k].componentName in Names(r) {
      var i := FindName(vs, ws, vs[k].componentName).value;
      assert Names(r)[i] == vs[k].componentName;
    }
  }

  // ----- stable sort by score, descending -----

  predicate SortedDesc(vs: seq<Vulnerability>) {
    forall i, j :: 0 <= i < j < |vs| ==> vs[i].hdfmScore >= vs[j].hdfmScore
  }

  /** The findings whose score is exactly `s`, in list order. */
  function WithScore(vs: seq<Vulnerability>, s: real): (r: seq<Vulnerability>)
    ensures |r| <= |vs|
  {
    if |vs| == 0 then []
    else (if vs[0].hdfmScore == s then [vs[0]] else []) + WithScore(vs[1..], s)
  }

  lemma {:induction false} WithScoreAppend(a: seq<Vulnerability>, b: seq<Vulnerability>, s: real)
    ensures WithScore(a + b, s) == WithScore(a, s) + WithScore(b, s)
  {
    if |a| == 0 {
      assert a + b == b;
    } else {
      var head := if a[0].hdfmScore == s then [a[0]] else [];
      assert (a + b)[0] == a[0];
      assert (a + b)[1..] == a[1..] + b;
      WithScoreAppend(a[1..], b, s);
      assert WithScore(a + b, s) == head + (WithScore(a[1..], s) + WithScore(b, s));
      assert WithScore(a, s) == head + WithScore(a[1..], s);
      assert head + (WithScore(a[1..], s) + WithScore(b, s)) == (head + WithScore(a[1..], s)) + WithScore(b, s);
    }
  }

  /** A single finding is kept exactly when it has the score. */
  lemma WithScoreSingle(x: Vulnerability, s: real)
    ensures WithScore([x], s) == if x.hdfmScore == s then [x] else []
  {
    assert [x][1..] == [];
  }

  lemma {:induction false} WithScoreNone(vs: seq<Vulnerability>, s: real)
    requires forall i :: 0 <= i < |vs| ==> vs[i].hdfmScore != s
    ensures WithScore(vs, s) == []
  {
    if |vs| > 0 {
      WithScoreNone(vs[1..], s);
    }
  }

  /** `x` placed after every finding that scores at least as high. */
  function Insert(x: Vulnerability, ys: seq<Vulnerability>): (r: seq<Vulnerability>)
    ensures multiset(r) == multiset(ys) + multiset{x}
  {
    if |ys| == 0 then [x]
    else if ys[0].hdfmScore >= x.hdfmScore then
      assert ys == [ys[0]] + ys[1..];
      [ys[0]] + Insert(x, ys[1..])
    else [x] + ys
  }

  /** Inserting into a descending list keeps it descending. */
  lemma {:induction false} InsertSorted(x: Vulnerability, ys: seq<Vulnerability>)
    requires SortedDesc(ys)
    ensures SortedDesc(Insert(x, ys))
  {
    if |ys| > 0 && ys[0].hdfmScore >= x.hdfmScore {
      InsertSorted(x, ys[1..]);
      ConsSorted(ys[0], Insert(x, ys[1..]), x, ys[1..]);
    }
  }

  /** A head that scores at least as high as everything after it extends a descending list. */
  lemma ConsSorted(y: Vulnerability, rest: seq<Vulnerability>, x: Vulnerability, tail: seq<Vulnerability>)
    requires SortedDesc(rest) && SortedDesc([y] + tail) && y.hdfmScore >= x.hdfmScore
    requires multiset(rest) == multiset(tail) + multiset{x}
    ensures SortedDesc([y] + rest)
  {
    forall z | z in rest ensures y.hdfmScore >= z.hdfmScore {
      assert z in multiset(rest);
      if z != x {
        assert z in multiset(tail);
        var k :| 0 <= k < |tail| && tail[k] == z;
        assert ([y] + tail)[0] == y && ([y] + tail)[k + 1] == z;
      }
    }
    var r := [y] + rest;
    forall i, j | 0 <= i < j < |r| ensures r[i].hdfmScore >= r[j].hdfmScore {
      if i == 0 {
        assert r[j] == rest[j - 1];
      } else {
        assert r[i] == rest[i - 1] && r[j] == rest[j - 1];
      }
    }
  }

  /**
   * Inserting into a descending list puts `x` after every finding of equal score, so the
   * findings of each score keep their order and `x` comes last among its own.
   */
  lemma {:induction false} InsertStable(x: Vulnerability, ys: seq<Vulnerability>, s: real)
    requires SortedDesc(ys)
    ensures WithScore(Insert(x, ys), s) == WithScore(ys, s) + (if x.hdfmScore == s then [x] else [])
  {
    if |ys| == 0 {
      WithScoreSingle(x, s);
    } else if ys[0].hdfmScore >= x.hdfmScore {
      assert Insert(x, ys) == [ys[0]] + Insert(x, ys[1..]);
      assert SortedDesc(ys[1..]);
      InsertStable(x, ys[1..], s);
      StableFront(ys[0], Insert(x, ys[1..]), ys, x, s);
    } else {
      assert Insert(x, ys) == [x] + ys;
      StableBefore(x, ys, s);
    }
  }

  lemma StableFront(y: Vulnerability, rest: seq<Vulnerability>, ys: seq<Vulnerability>, x: Vulnerability, s: real)
    requires |ys| > 0 && ys[0] == y
    requires WithScore(rest, s) == WithScore(ys[1..], s) + (if x.hdfmScore == s then [x] else [])
    ensures WithScore([y] + rest, s) == WithScore(ys, s) + (if x.hdfmScore == s then [x] else [])
  {
    assert ([y] + rest)[1..] == rest;
  }

  lemma StableBefore(x: Vulnerability, ys: seq<Vulnerability>, s: real)
    requires SortedDesc(ys) && |ys| > 0 && ys[0].hdfmScore < x.hdfmScore
    ensures WithScore([x] + ys, s) == WithScore(ys, s) + (if x.hdfmScore == s then [x] else [])
  {
    WithScoreNone(ys, x.hdfmScore);
    assert ([x] + ys)[1..] == ys;
  }

  /**
   * `sort(key=hdfm_score, reverse=True)`: sorted by descending score, a permutation of the input,
   * and stable — the findings of each score keep their input order.
   */
  function SortByScore(vs: seq<Vulnerability>): (r: seq<Vulnerability>)
    ensures SortedDesc(r)
    ensures multiset(r) == multiset(vs)
    ensures forall s :: WithScore(r, s) == WithScore(vs, s)
  {
    if |vs| == 0 then []
    else
      SortStep(vs, SortByScore(vs[..|vs| - 1]));
      Insert(vs[|vs| - 1], SortByScore(vs[..|vs| - 1]))
  }

  /** Inserting the last finding into the sorted rest sorts the whole list. */
  lemma SortStep(vs: seq<Vulnerability>, sorted: seq<Vulnerability>)
    requires |vs| > 0
    requires SortedDesc(sorted) && multiset(sorted) == multiset(vs[..|vs| - 1])
    requires forall s :: WithScore(sorted, s) == WithScore(vs[..|vs| - 1], s)
    ensures SortedDesc(Insert(vs[|vs| - 1], sorted))
    ensures multiset(Insert(vs[|vs| - 1], sorted)) == multiset(vs)
    ensures forall s :: WithScore(Insert(vs[|vs| - 1], sorted), s) == WithScore(vs, s)
  {
    var init, x := vs[..|vs| - 1], vs[|vs| - 1];
    assert vs == init + [x];
    InsertSorted(x, sorted);
    assert multiset(vs) == multiset(init) + multiset{x};
    forall s ensures WithScore(Insert(x, sorted), s) == WithScore(vs, s) {
      InsertStable(x, sorted, s);
      WithScoreAppend(init, [x], s);
      WithScoreSingle(x, s);
    }
  }

  // ----- step 6: thresholds and priorities -----

  /** The positive scores, in list order. */
  function RiskyScores(vs: seq<Vulnerability>): (r: seq<real>)
    ensures forall i :: 0 <= i < |r| ==> r[i] > 0.0
    ensures |r| == 0 <==> forall i :: 0 <= i < |vs| ==> vs[i].hdfmScore <= 0.0
  {
    if |vs| == 0 then []
    else
      var rest := RiskyScores(vs[1..]);
      assert forall i :: 1 <= i < |vs| ==> vs[i] == vs[1..][i - 1];
      (if vs[0].hdfmScore > 0.0 then [vs[0].hdfmScore] else []) + rest
  }

  lemma {:induction false} RiskyScoresBounded(vs: seq<Vulnerability>, hi: real)
    requires forall i :: 0 <= i < |vs| ==> vs[i].hdfmScore <= hi
    ensures forall i :: 0 <= i < |RiskyScores(vs)| ==> RiskyScores(vs)[i] <= hi
  {
    if |vs| > 0 {
      RiskyScoresBounded(vs[1..], hi);
    }
  }

  /**
   * The critical and high thresholds on the x10 scale: 9.0 and 7.0 when no score is positive,
   * otherwise the 90th and 70th percentiles of the positive scores, floored at 7.0 and 4.0.
   */
  function Thresholds(vs: seq<Vulnerability>, nm: Numerics): (t: (real, real))
    ensures (forall i :: 0 <= i < |vs| ==> vs[i].hdfmScore <= 0.0) ==> t == (9.0, 7.0)
    ensures (exists i :: 0 <= i < |vs| && vs[i].hdfmScore > 0.0) ==> t.0 >= 7.0 && t.1 >= 4.0
  {
    var risky := RiskyScores(vs);
    if |risky| == 0 then (9.0, 7.0)
    else (MaxReal(nm.percentile(risky, 90.0), 7.0), MaxReal(nm.percentile(risky, 70.0), 4.0))
  }

  /**
   * Scores are clipped to 1.0 before the percentiles are taken, so a lawful percentile never
   * clears the floors: whenever some score is positive the thresholds are exactly 7.0 and 4.0.
   */
  lemma ThresholdsCollapseToFloors(vs: seq<Vulnerability>, nm: Numerics)
    requires Lawful(nm)
    requires forall i :: 0 <= i < |vs| ==> vs[i].hdfmScore <= 1.0
    requires exists i :: 0 <= i < |vs| && vs[i].hdfmScore > 0.0
    ensures Thresholds(vs, nm) == (7.0, 4.0)
  {
    var risky := RiskyScores(vs);
    RiskyScoresBounded(vs, 1.0);
    assert nm.percentile(risky, 90.0) <= Max(risky);
    assert nm.percentile(risky, 70.0) <= Max(risky);
  }

  /**
   * The priority of one score against thresholds on the x10 scale: LOW for a score that is not
   * positive, then CRITICAL at or above the critical threshold, HIGH at or above the high one,
   * else MEDIUM.
   */
  function Bucket(score: real, tauCrit: real, tauHigh: real): (p: Priority)
    ensures p == Low <==> score * 10.0 <= 0.0
    ensures p == Critical <==> score * 10.0 > 0.0 && score * 10.0 >= tauCrit
    ensures p == High <==> score * 10.0 > 0.0 && tauHigh <= score * 10.0 < tauCrit
    ensures p == Medium <==> score * 10.0 > 0.0 && score * 10.0 < tauCrit && score * 10.0 < tauHigh
  {
    if score * 10.0 <= 0.0 then Low
    else if score * 10.0 >= tauCrit then Critical
    else if score * 10.0 >= tauHigh then High
    else Medium
  }

  /** Whatever the thresholds, a higher score never earns a lower priority. */
  lemma BucketMonotone(s1: real, s2: real, tauCrit: real, tauHigh: real)
    requires s1 <= s2
    ensures Bucket(s1, tauCrit, tauHigh).Rank() <= Bucket(s2, tauCrit, tauHigh).Rank()
  {
  }

  /** Every finding with its priority set from its score; nothing else changes. */
  function AssignAll(vs: seq<Vulnerability>, tauCrit: real, tauHigh: real): (r: seq<Vulnerability>)
    ensures |r| == |vs|
    ensures forall i :: 0 <= i < |vs| ==> r[i] == vs[i].(priority := Bucket(vs[i].hdfmScore, tauCrit, tauHigh))
  {
    if |vs| == 0 then []
    else [vs[0].(priority := Bucket(vs[0].hdfmScore, tauCrit, tauHigh))] + AssignAll(vs[1..], tauCrit, tauHigh)
  }

  /** The priorities of a list of findings, in order. */
  function Priorities(vs: seq<Vulnerability>): (ps: seq<Priority>)
    ensures |ps| == |vs| && forall i :: 0 <= i < |vs| ==> ps[i] == vs[i].priority
  {
    if |vs| == 0 then [] else [vs[0].priority] + Priorities(vs[1..])
  }

  /** How many findings are CRITICAL. */
  function CountCritical(vs: seq<Vulnerability>): (n: nat)
    ensures n == multiset(Priorities(vs))[Critical]
    ensures n <= |vs|
    ensures n == 0 <==> forall i :: 0 <= i < |vs| ==> vs[i].priority != Critical
    ensures n == |vs| <==> forall i :: 0 <= i < |vs| ==> vs[i].priority == Critical
  {
    if |vs| == 0 then 0
    else
      assert forall i :: 1 <= i < |vs| ==> vs[i] == vs[1..][i - 1];
      assert Priorities(vs) == [vs[0].priority] + Priorities(vs[1..]);
      (if vs[0].priority == Critical then 1 else 0) + CountCritical(vs[1..])
  }

  /** The references whose TCS exceeds 0.7. */
  function Hubs(tcs: map<string, real>): (h: set<string>)
    ensures h <= tcs.Keys
    ensures forall k :: k in tcs ==> (k in h <==> tcs[k] > 0.7)
  {
    set k | k in tcs && tcs[k] > 0.7
  }

  lemma HubCountBounded(tcs: map<string, real>)
    ensures |Hubs(tcs)| <= |tcs|
  {
    SubsetCardinality(Hubs(tcs), tcs.Keys);
  }

  // ----- the whole analysis -----

  /**
   * The priority a clipped score ends up with: CRITICAL from 0.7, HIGH from 0.4, MEDIUM for any
   * other positive score, LOW for a score that is not positive.
   */
  function PriorityBand(score: real): (p: Priority)
    ensures p == Critical <==> score >= 0.7
    ensures p == High <==> 0.4 <= score < 0.7
    ensures p == Medium <==> 0.0 < score < 0.4
    ensures p == Low <==> score <= 0.0
  {
    if score <= 0.0 then Low
    else if score >= 0.7 then Critical
    else if score >= 0.4 then High
    else Medium
  }

  /** At the floors 7.0 and 4.0 the buckets are exactly the bands. */
  lemma BucketAtFloors(score: real)
    ensures Bucket(score, 7.0, 4.0) == PriorityBand(score)
  {
  }

  /**
   * The kept, sorted and prioritised findings of a non-empty collection, and the entropy
   * weights they were scored with.
   */
  function RankFindings(all: seq<Vulnerability>, nm: Numerics): (out: (seq<Vulnerability>, map<string, real>))
    requires Lawful(nm) && |all| > 0
    ensures out.1.Keys == WeightKeys
    ensures 0 < |out.0| <= |all|
    ensures SortedDesc(out.0)
    ensures forall i, j :: 0 <= i < j < |out.0| ==> out.0[i].componentName != out.0[j].componentName
    ensures forall i :: 0 <= i < |out.0| ==> out.0[i].hdfmScore <= 1.0
    ensures forall i :: 0 <= i < |out.0| ==> out.0[i].priority == PriorityBand(out.0[i].hdfmScore)
    ensures forall k :: 0 <= k < |all| ==> all[k].componentName in Names(out.0)
    ensures out.1 == CalculateEntropyWeights(Rows(all), nm)
    ensures RanksWinners(out.0, ScoreAll(all, out.1, CalculateEpssMedian(all, nm)))
    ensures KeepsTieOrder(out.0, KeepBest(ScoreAll(all, out.1, CalculateEpssMedian(all, nm))))
  {
    var weights := CalculateEntropyWeights(Rows(all), nm);
    var eta := CalculateEpssMedian(all, nm);
    var scored := ScoreAll(all, weights, eta);
    var sorted := SortByScore(KeepBest(scored));
    var (tauCrit, tauHigh) := Thresholds(sorted, nm);
    var ranked := AssignAll(sorted, tauCrit, tauHigh);
    RankFacts(all, scored, sorted, nm, ranked);
    RankedAreWinners(scored, KeepBest(scored), sorted, ranked);
    RankedKeepTieOrder(KeepBest(scored), sorted, ranked);
    (ranked, weights)
  }

  /** Every finding with the priority band of its score, in order. */
  function BandAll(vs: seq<Vulnerability>): (r: seq<Vulnerability>)
    ensures |r| == |vs| && forall i :: 0 <= i < |vs| ==> r[i] == Banded(vs[i])
  {
    if |vs| == 0 then [] else [Banded(vs[0])] + BandAll(vs[1..])
  }

  /** Banding leaves scores alone, so it commutes with picking the findings of one score. */
  lemma {:induction false} WithScoreBanded(vs: seq<Vulnerability>, s: real)
    ensures WithScore(BandAll(vs), s) == BandAll(WithScore(vs, s))
  {
    if |vs| > 0 {
      WithScoreBanded(vs[1..], s);
      assert BandAll(vs)[1..] == BandAll(vs[1..]);
      var head := if vs[0].hdfmScore == s then [vs[0]] else [];
      assert WithScore(vs, s) == head + WithScore(vs[1..], s);
      BandAllAppend(head, WithScore(vs[1..], s));
    }
  }

  lemma BandAllAppend(a: seq<Vulnerability>, b: seq<Vulnerability>)
    ensures BandAll(a + b) == BandAll(a) + BandAll(b)
  {
    var l, r := BandAll(a + b), BandAll(a) + BandAll(b);
    forall i | 0 <= i < |a + b| ensures l[i] == r[i] {
      if i < |a| {
        assert (a + b)[i] == a[i];
      } else {
        assert (a + b)[i] == b[i - |a|];
      }
    }
  }

  /**
   * The ranked findings of each score are the kept findings of that score, in the order they
   * were kept, each with the band of its score: the sort is stable.
   */
  ghost predicate KeepsTieOrder(ranked: seq<Vulnerability>, kept: seq<Vulnerability>) {
    forall s :: WithScore(ranked, s) == BandAll(WithScore(kept, s))
  }

  /** A stable sort of the kept findings, banded one by one, keeps their order among ties. */
  lemma RankedKeepTieOrder(kept: seq<Vulnerability>, sorted: seq<Vulnerability>, ranked: seq<Vulnerability>)
    requires forall s :: WithScore(sorted, s) == WithScore(kept, s)
    requires |ranked| == |sorted| && forall i :: 0 <= i < |sorted| ==> ranked[i] == Banded(sorted[i])
    ensures KeepsTieOrder(ranked, kept)
  {
    assert ranked == BandAll(sorted);
    forall s ensures WithScore(ranked, s) == BandAll(WithScore(kept, s)) {
      WithScoreBanded(sorted, s);
    }
  }

  /** The finding with the priority band of its score. */
  function Banded(v: Vulnerability): (b: Vulnerability)
    ensures b.(priority := v.priority) == v && b.priority == PriorityBand(v.hdfmScore)
  {
    v.(priority := PriorityBand(v.hdfmScore))
  }

  /**
   * The ranked findings are exactly the winners of the scored findings, each with the band of
   * its score: every ranked finding is a banded winner, and every winner is ranked.
   */
  predicate RanksWinners(ranked: seq<Vulnerability>, scored: seq<Vulnerability>) {
    && (forall i :: 0 <= i < |ranked| ==>
          exists k :: 0 <= k < |scored| && IsWinner(scored, |scored|, k) && ranked[i] == Banded(scored[k]))
    && (forall k :: 0 <= k < |scored| && IsWinner(scored, |scored|, k) ==> Banded(scored[k]) in ranked)
  }

  /** Keeping the winners, permuting them and banding each yields exactly the banded winners. */
  lemma RankedAreWinners(scored: seq<Vulnerability>, kept: seq<Vulnerability>, sorted: seq<Vulnerability>,
                         ranked: seq<Vulnerability>)
    requires kept == KeepBest(scored) && multiset(sorted) == multiset(kept)
    requires |ranked| == |sorted| && forall i :: 0 <= i < |sorted| ==> ranked[i] == Banded(sorted[i])
    ensures RanksWinners(ranked, scored)
  {
    var ws := WinnerIndices(scored);
    assert kept == Pick(scored, ws);
    forall i | 0 <= i < |ranked|
      ensures exists k :: 0 <= k < |scored| && IsWinner(scored, |scored|, k) && ranked[i] == Banded(scored[k])
    {
      assert sorted[i] in multiset(kept);
      var a :| 0 <= a < |kept| && kept[a] == sorted[i];
      assert IsWinner(scored, |scored|, ws[a]);
    }
    forall k | 0 <= k < |scored| && IsWinner(scored, |scored|, k) ensures Banded(scored[k]) in ranked {
      WinnersAreKept(scored, k);
      var a :| 0 <= a < |ws| && ws[a] == k;
      assert kept[a] == scored[k];
      assert scored[k] in multiset(sorted);
      var b :| 0 <= b < |sorted| && sorted[b] == scored[k];
      assert ranked[b] == Banded(scored[k]);
    }
  }

  lemma RankFacts(all: seq<Vulnerability>, scored: seq<Vulnerability>, sorted: seq<Vulnerability>,
                  nm: Numerics, ranked: seq<Vulnerability>)
    requires Lawful(nm) && |all| > 0
    requires |scored| == |all| && forall i :: 0 <= i < |all| ==> scored[i].componentName == all[i].componentName
    requires forall i :: 0 <= i < |scored| ==> scored[i].hdfmScore <= 1.0
    requires sorted == SortByScore(KeepBest(scored))
    requires ranked == AssignAll(sorted, Thresholds(sorted, nm).0, Thresholds(sorted, nm).1)
    ensures 0 < |ranked| <= |all|
    ensures SortedDesc(ranked)
    ensures forall i, j :: 0 <= i < j < |ranked| ==> ranked[i].componentName != ranked[j].componentName
    ensures forall i :: 0 <= i < |ranked| ==> ranked[i].hdfmScore <= 1.0
    ensures forall i :: 0 <= i < |ranked| ==> ranked[i].priority == PriorityBand(ranked[i].hdfmScore)
    ensures forall k :: 0 <= k < |all| ==> all[k].componentName in Names(ranked)
    ensures multiset(sorted) == multiset(KeepBest(scored))
    ensures |ranked| == |sorted| && forall i :: 0 <= i < |sorted| ==> ranked[i] == Banded(sorted[i])
  {
    var kept := KeepBest(scored);
    KeptToSorted(all, scored, kept, sorted);
    SortedToRanked(sorted, nm, ranked);
  }

  lemma KeptToSorted(all: seq<Vulnerability>, scored: seq<Vulnerability>, kept: seq<Vulnerability>, sorted: seq<Vulnerability>)
    requires |all| > 0
    requires |scored| == |all| && forall i :: 0 <= i < |all| ==> scored[i].componentName == all[i].componentName
    requires forall i :: 0 <= i < |scored| ==> scored[i].hdfmScore <= 1.0
    requires kept == KeepBest(scored) && sorted == SortByScore(kept)
    ensures 0 < |sorted| <= |all|
    ensures forall i, j :: 0 <= i < j < |sorted| ==> sorted[i].componentName != sorted[j].componentName
    ensures forall i :: 0 <= i < |sorted| ==> sorted[i].hdfmScore <= 1.0
    ensures forall k :: 0 <= k < |all| ==> all[k].componentName in Names(sorted)
  {
    SortKeepsNames(kept, sorted);
    SortedScoresBounded(scored, kept, sorted);
    SortedCoverAll(all, scored, kept, sorted);
  }

  /** What is kept and sorted comes from the scored findings, so it keeps their bound. */
  lemma SortedScoresBounded(scored: seq<Vulnerability>, kept: seq<Vulnerability>, sorted: seq<Vulnerability>)
    requires forall i :: 0 <= i < |scored| ==> scored[i].hdfmScore <= 1.0
    requires forall i :: 0 <= i < |kept| ==> kept[i] in scored
    requires forall i :: 0 <= i < |sorted| ==> sorted[i] in kept
    ensures forall i :: 0 <= i < |sorted| ==> sorted[i].hdfmScore <= 1.0
  {
    forall i | 0 <= i < |sorted| ensures sorted[i].hdfmScore <= 1.0 {
      assert sorted[i] in kept;
      assert sorted[i] in scored;
    }
  }

  /** Every name of the input survives keeping and sorting. */
  lemma SortedCoverAll(all: seq<Vulnerability>, scored: seq<Vulnerability>, kept: seq<Vulnerability>, sorted: seq<Vulnerability>)
    requires |all| > 0
    requires |scored| == |all| && forall i :: 0 <= i < |all| ==> scored[i].componentName == all[i].componentName
    requires forall k :: 0 <= k < |scored| ==> scored[k].componentName in Names(kept)
    requires forall n :: n in Names(kept) ==> n in Names(sorted)
    ensures forall k :: 0 <= k < |all| ==> all[k].componentName in Names(sorted)
    ensures |sorted| > 0
  {
    forall k | 0 <= k < |all| ensures all[k].componentName in Names(sorted) {
      assert scored[k].componentName in Names(kept);
    }
    assert all[0].componentName in Names(sorted);
  }

  lemma SortedToRanked(sorted: seq<Vulnerability>, nm: Numerics, ranked: seq<Vulnerability>)
    requires Lawful(nm) && SortedDesc(sorted)
    requires forall i :: 0 <= i < |sorted| ==> sorted[i].hdfmScore <= 1.0
    requires ranked == AssignAll(sorted, Thresholds(sorted, nm).0, Thresholds(sorted, nm).1)
    ensures |ranked| == |sorted| && Names(ranked) == Names(sorted)
    ensures SortedDesc(ranked)
    ensures forall i :: 0 <= i < |ranked| ==> ranked[i].hdfmScore == sorted[i].hdfmScore
    ensures forall i :: 0 <= i < |ranked| ==> ranked[i].priority == PriorityBand(ranked[i].hdfmScore)
    ensures forall i :: 0 <= i < |ranked| ==> ranked[i] == Banded(sorted[i])
  {
    var t := Thresholds(sorted, nm);
    AssignKeepsOrder(sorted, t.0, t.1);
    PrioritiesAreBands(sorted, nm);
    forall i | 0 <= i < |ranked| ensures ranked[i].priority == PriorityBand(ranked[i].hdfmScore) && ranked[i] == Banded(sorted[i]) {
      assert ranked[i] == sorted[i].(priority := Bucket(sorted[i].hdfmScore, t.0, t.1));
    }
  }

  /** Assigning priorities changes no score and no name, so the order survives. */
  lemma AssignKeepsOrder(sorted: seq<Vulnerability>, tauCrit: real, tauHigh: real)
    requires SortedDesc(sorted)
    ensures Names(AssignAll(sorted, tauCrit, tauHigh)) == Names(sorted)
    ensures SortedDesc(AssignAll(sorted, tauCrit, tauHigh))
    ensures forall i :: 0 <= i < |sorted| ==> AssignAll(sorted, tauCrit, tauHigh)[i].hdfmScore == sorted[i].hdfmScore
  {
    var r := AssignAll(sorted, tauCrit, tauHigh);
    assert forall i :: 0 <= i < |sorted| ==> r[i].hdfmScore == sorted[i].hdfmScore;
    assert Names(r) == Names(sorted);
  }

  /**
   * Sorting the kept findings permutes them: it keeps their names, their distinctness and their
   * score bound.
   */
  lemma SortKeepsNames(kept: seq<Vulnerability>, sorted: seq<Vulnerability>)
    requires multiset(sorted) == multiset(kept)
    requires forall a, b :: 0 <= a < b < |kept| ==> kept[a].componentName != kept[b].componentName
    ensures |sorted| == |kept|
    ensures forall n :: n in Names(kept) ==> n in Names(sorted)
    ensures forall i, j :: 0 <= i < j < |sorted| ==> sorted[i].componentName != sorted[j].componentName
    ensures forall i :: 0 <= i < |sorted| ==> sorted[i] in kept
  {
    assert |sorted| == |multiset(sorted)| == |multiset(kept)| == |kept|;
    forall n | n in Names(kept) ensures n in Names(sorted) {
      var a :| 0 <= a < |kept| && Names(kept)[a] == n;
      assert kept[a] in multiset(sorted);
      var b :| 0 <= b < |sorted| && sorted[b] == kept[a];
      assert Names(sorted)[b] == n;
    }
    forall i, j | 0 <= i < j < |sorted| ensures sorted[i].componentName != sorted[j].componentName {
      DistinctPair(kept, sorted, i, j);
    }
    forall i | 0 <= i < |sorted| ensures sorted[i] in kept {
      assert sorted[i] in multiset(kept);
    }
  }

  /** A permutation of a list with distinct names has distinct names. */
  lemma DistinctPair(kept: seq<Vulnerability>, sorted: seq<Vulnerability>, i: nat, j: nat)
    requires multiset(sorted) == multiset(kept)
    requires forall a, b :: 0 <= a < b < |kept| ==> kept[a].componentName != kept[b].componentName
    requires i < j < |sorted|
    ensures sorted[i].componentName != sorted[j].componentName
  {
    assert sorted[i] in multiset(kept) && sorted[j] in multiset(kept);
    var a :| 0 <= a < |kept| && kept[a] == sorted[i];
    var b :| 0 <= b < |kept| && kept[b] == sorted[j];
    if a == b {
      MultisetOne(kept, a);
      MultisetTwo(sorted, i, j);
      assert false;
    }
  }

  lemma {:induction false} MultisetTwo(s: seq<Vulnerability>, i: nat, j: nat)
    requires i < j < |s| && s[i] == s[j]
    ensures multiset(s)[s[i]] >= 2
  {
    assert s == s[..i] + [s[i]] + s[i + 1..j] + [s[j]] + s[j + 1..];
  }

  lemma {:induction false} MultisetOne(s: seq<Vulnerability>, a: nat)
    requires a < |s|
    requires forall x, y :: 0 <= x < y < |s| ==> s[x].componentName != s[y].componentName
    ensures multiset(s)[s[a]] == 1
  {
    assert s == s[..a] + [s[a]] + s[a + 1..];
    assert s[a] !in s[..a] by {
      forall x | 0 <= x < a ensures s[x] != s[a] {
        assert s[x].componentName != s[a].componentName;
      }
    }
    assert s[a] !in s[a + 1..] by {
      forall x | a < x < |s| ensures s[x] != s[a] {
        assert s[a].componentName != s[x].componentName;
      }
    }
  }

  /**
   * With every score clipped to 1.0, the thresholds make each bucket a fixed band: the
   * priority of a finding depends on its own score alone.
   */
  lemma PrioritiesAreBands(vs: seq<Vulnerability>, nm: Numerics)
    requires Lawful(nm)
    requires forall i :: 0 <= i < |vs| ==> vs[i].hdfmScore <= 1.0
    ensures forall i :: 0 <= i < |vs| ==>
      Bucket(vs[i].hdfmScore, Thresholds(vs, nm).0, Thresholds(vs, nm).1) == PriorityBand(vs[i].hdfmScore)
  {
    if exists i :: 0 <= i < |vs| && vs[i].hdfmScore > 0.0 {
      ThresholdsCollapseToFloors(vs, nm);
      forall i | 0 <= i < |vs| ensures Bucket(vs[i].hdfmScore, 7.0, 4.0) == PriorityBand(vs[i].hdfmScore) {
        BucketAtFloors(vs[i].hdfmScore);
      }
    }
  }

  /**
   * `analyze`: `None` stands for the error the pipeline swallows, a dependency entry without a
   * `ref`, which the graph library rejects. Without components there are no findings and no
   * weights; otherwise there is one prioritised finding per component name, sorted by score.
   */
  function Analyze(sbomId: string, timestamp: string, cs: seq<Component>, deps: seq<Dependency>,
                   intel: ThreatIntel, nm: Numerics): (r: Option<AnalysisResult>)
    requires Lawful(nm)
    ensures r.None? <==> MaxDepth(deps).None?
    ensures r.Some? ==> r.value.sbomId == sbomId && r.value.timestamp == timestamp
    ensures r.Some? ==> r.value.maxDepth == MaxDepth(deps).value
    ensures r.Some? ==> r.value.totalComponents == |cs|
    ensures r.Some? ==> r.value.totalVulnerabilities == |r.value.vulnerabilities|
    ensures r.Some? ==> r.value.criticalFindings == CountCritical(r.value.vulnerabilities)
    ensures r.Some? ==> r.value.hubComponents == |Hubs(CalculateTcs(cs, deps))|
    ensures r.Some? ==> (|r.value.vulnerabilities| == 0 <==> |cs| == 0)
    ensures r.Some? && |cs| == 0 ==> r.value.entropyWeights == map[]
    ensures r.Some? && |cs| > 0 ==> r.value.entropyWeights.Keys == WeightKeys
    ensures r.Some? ==> SortedDesc(r.value.vulnerabilities)
    ensures r.Some? ==> forall i :: 0 <= i < |r.value.vulnerabilities| ==>
      r.value.vulnerabilities[i].priority == PriorityBand(r.value.vulnerabilities[i].hdfmScore)
    ensures r.Some? ==> forall i, j :: 0 <= i < j < |r.value.vulnerabilities| ==>
      r.value.vulnerabilities[i].componentName != r.value.vulnerabilities[j].componentName
    ensures r.Some? && |cs| > 0 ==> var all := CollectVulns(cs, CalculateTcs(cs, deps), intel);
      r.value.entropyWeights == CalculateEntropyWeights(Rows(all), nm)
    ensures r.Some? && |cs| > 0 ==> var all := CollectVulns(cs, CalculateTcs(cs, deps), intel);
      RanksWinners(r.value.vulnerabilities, ScoreAll(all, r.value.entropyWeights, CalculateEpssMedian(all, nm)))
    ensures r.Some? && |cs| > 0 ==> var all := CollectVulns(cs, CalculateTcs(cs, deps), intel);
      KeepsTieOrder(r.value.vulnerabilities, KeepBest(ScoreAll(all, r.value.entropyWeights, CalculateEpssMedian(all, nm))))
  {
    var tcs := CalculateTcs(cs, deps);
    var all := CollectVulns(cs, tcs, intel);
    var hubs := |Hubs(tcs)|;
    match MaxDepth(deps)
    case None => None
    case Some(depth) =>
      if |all| == 0 then
        Some(AnalysisResult(sbomId, timestamp, |cs|, 0, 0, hubs, depth, [], map[]))
      else
        var (ranked, weights) := RankFindings(all, nm);
        Some(AnalysisResult(sbomId, timestamp, |cs|, |ranked|, CountCritical(ranked), hubs, depth, ranked, weights))
  }
}
