/**
 * The Hybrid Decision-Fusion scoring kernel: exposure from a CVSS vector, exploitability
 * fusion, entropy-driven metric weights, the EPSS median and the branching composite score.
 */
module HdfmModel {
  import opened Wrappers
  import opened Strings
  import opened Numerics
  import opened Entities

  // ----- exposure index -----

  /** Exposure of each attack-vector token, in the order the tokens are tried. */
  const ExposureTable: seq<(string, real)> := [("AV:N", 0.85), ("AV:A", 0.6), ("AV:L", 0.3), ("AV:P", 0.1)]

  /** Exposure of an empty vector, or of one that names no attack vector. */
  const NeutralExposure: real := 0.5

  /** The value of the first table entry whose token occurs in `s`. */
  function FirstMatch(table: seq<(string, real)>, s: string): Option<real> {
    if |table| == 0 then None
    else if Contains(s, table[0].0) then Some(table[0].1)
    else FirstMatch(table[1..], s)
  }

  /**
   * Vector-based Exposure Index: 0.5 for an empty vector; otherwise the exposure of the first
   * of AV:N, AV:A, AV:L, AV:P found in the vector, or 0.5 when none is.
   */
  function CalculateVei(vector: string): (r: real)
    ensures vector == "" ==> r == NeutralExposure
    ensures Contains(vector, "AV:N") ==> r == 0.85
    ensures !Contains(vector, "AV:N") && Contains(vector, "AV:A") ==> r == 0.6
    ensures !Contains(vector, "AV:N") && !Contains(vector, "AV:A") && Contains(vector, "AV:L") ==> r == 0.3
    ensures !Contains(vector, "AV:N") && !Contains(vector, "AV:A") && !Contains(vector, "AV:L") && Contains(vector, "AV:P") ==> r == 0.1
    ensures !Contains(vector, "AV:N") && !Contains(vector, "AV:A") && !Contains(vector, "AV:L") && !Contains(vector, "AV:P") ==> r == NeutralExposure
    ensures r in {0.85, 0.6, 0.5, 0.3, 0.1}
  {
    ExposureTableOrder(vector);
    if vector == "" then NeutralExposure
    else FirstMatch(ExposureTable, vector).GetOr(NeutralExposure)
  }

  /** Walking the exposure table tries AV:N, AV:A, AV:L and AV:P, in that order. */
  lemma ExposureTableOrder(s: string)
    ensures FirstMatch(ExposureTable, s) ==
      if Contains(s, "AV:N") then Some(0.85)
      else if Contains(s, "AV:A") then Some(0.6)
      else if Contains(s, "AV:L") then Some(0.3)
      else if Contains(s, "AV:P") then Some(0.1)
      else None
  {
    var t := ExposureTable;
    assert t[0] == ("AV:N", 0.85) && t[1..][0] == ("AV:A", 0.6);
    assert t[1..][1..][0] == ("AV:L", 0.3) && t[1..][1..][1..][0] == ("AV:P", 0.1);
    var t1, t2, t3 := t[1..], t[1..][1..], t[1..][1..][1..];
    assert t3[1..] == [];
    assert FirstMatch(t3, s) == if Contains(s, "AV:P") then Some(0.1) else None;
    assert FirstMatch(t2, s) == if Contains(s, "AV:L") then Some(0.3) else FirstMatch(t3, s);
    assert FirstMatch(t1, s) == if Contains(s, "AV:A") then Some(0.6) else FirstMatch(t2, s);
  }

  // ----- exploitability fusion -----

  /** E = 1 - (1 - P_EPSS)(1 - P_KEV), with P_KEV 1 for a listed vulnerability and 0 otherwise. */
  function CalculateExploitabilityFusion(epss: real, kev: bool): (r: real)
    ensures kev ==> r == 1.0
    ensures !kev ==> r == epss
    ensures 0.0 <= epss <= 1.0 ==> epss <= r <= 1.0
  {
    var pKev := if kev then 1.0 else 0.0;
    1.0 - (1.0 - epss) * (1.0 - pKev)
  }

  // ----- entropy weights -----

  /** The four metric columns of the scoring table. */
  datatype Metric = Severity | Tcs | Vei | Exploitability {

    /** The column's name, which is also its key in the weight map. */
    function Key(): string {
      match this
      case Severity => "severity"
      case Tcs => "tcs"
      case Vei => "vei"
      case Exploitability => "exploitability"
    }
  }

  /** One row of the scoring table: the four metrics of one vulnerability. */
  datatype MetricRow = MetricRow(severity: real, tcs: real, vei: real, exploitability: real) {

    function Get(m: Metric): real {
      match m
      case Severity => severity
      case Tcs => tcs
      case Vei => vei
      case Exploitability => exploitability
    }
  }

  const WeightKeys: set<string> := {"severity", "tcs", "vei", "exploitability"}

  /** Equal weights, the fallback when the table cannot discriminate. */
  const Uniform: map<string, real> := map["severity" := 0.25, "tcs" := 0.25, "vei" := 0.25, "exploitability" := 0.25]

  /** One column of the table, row by row. */
  function Column(rows: seq<MetricRow>, m: Metric): (c: seq<real>)
    ensures |c| == |rows| && forall i :: 0 <= i < |rows| ==> c[i] == rows[i].Get(m)
  {
    if |rows| == 0 then [] else [rows[0].Get(m)] + Column(rows[1..], m)
  }

  /** p ln p for the share p = x / total, counted only when the share is positive. */
  function ShareTerm(x: real, total: real, ln: real -> real): real
    requires total != 0.0
  {
    var p := x / total;
    if p > 0.0 then p * ln(p) else 0.0
  }

  /** The sum of `ShareTerm` over a column. */
  function SumPLogP(col: seq<real>, total: real, ln: real -> real): real
    requires total != 0.0
  {
    if |col| == 0 then 0.0 else ShareTerm(col[0], total, ln) + SumPLogP(col[1..], total, ln)
  }

  /**
   * The weight a column earns before normalisation: 0 when the column sums to 0, otherwise
   * one minus its Shannon entropy over the shares x / column sum, scaled by k = 1 / ln(m).
   */
  function RawWeight(rows: seq<MetricRow>, m: Metric, nm: Numerics): real
    requires |rows| >= 2 && nm.ln(|rows| as real) != 0.0
  {
    var col := Column(rows, m);
    var total := Sum(col);
    if total == 0.0 then 0.0
    else
      var k := 1.0 / nm.ln(|rows| as real);
      1.0 - (-k * SumPLogP(col, total, nm.ln))
  }

  function RawTotal(rows: seq<MetricRow>, nm: Numerics): real
    requires |rows| >= 2 && nm.ln(|rows| as real) != 0.0
  {
    RawWeight(rows, Severity, nm) + RawWeight(rows, Tcs, nm) + RawWeight(rows, Vei, nm) + RawWeight(rows, Exploitability, nm)
  }

  /** Raw weights scaled by their total, which must be non-zero; the results sum to 1. */
  function Normalise(a: real, b: real, c: real, d: real): (w: map<string, real>)
    requires a + b + c + d != 0.0
    ensures w.Keys == WeightKeys
    ensures w["severity"] == a / (a + b + c + d) && w["tcs"] == b / (a + b + c + d)
    ensures w["vei"] == c / (a + b + c + d) && w["exploitability"] == d / (a + b + c + d)
    ensures w["severity"] + w["tcs"] + w["vei"] + w["exploitability"] == 1.0
  {
    var total := a + b + c + d;
    SharesSumToOne(a, b, c, d, total);
    map["severity" := a / total, "tcs" := b / total, "vei" := c / total, "exploitability" := d / total]
  }

  lemma SharesSumToOne(a: real, b: real, c: real, d: real, total: real)
    requires total == a + b + c + d && total != 0.0
    ensures a / total + b / total + c / total + d / total == 1.0
  {
    DivisionDistributes(a, b, total);
    DivisionDistributes(a + b, c, total);
    DivisionDistributes(a + b + c, d, total);
  }

  lemma DivisionDistributes(a: real, b: real, t: real)
    requires t != 0.0
    ensures a / t + b / t == (a + b) / t
  {
  }

  /**
   * Shannon-entropy weighting: one weight per metric, uniform when the table has at most one row
   * or when the raw weights total 0, otherwise each raw weight divided by their total.
   */
  function CalculateEntropyWeights(rows: seq<MetricRow>, nm: Numerics): (w: map<string, real>)
    requires Lawful(nm)
    ensures w.Keys == WeightKeys
    ensures w["severity"] + w["tcs"] + w["vei"] + w["exploitability"] == 1.0
    ensures |rows| <= 1 ==> w == Uniform
    ensures |rows| >= 2 && RawTotal(rows, nm) == 0.0 ==> w == Uniform
    ensures |rows| >= 2 && RawTotal(rows, nm) != 0.0 ==>
      forall m: Metric :: w[m.Key()] == RawWeight(rows, m, nm) / RawTotal(rows, nm)
  {
    if |rows| <= 1 then Uniform
    else
      assert nm.ln(|rows| as real) > 0.0;
      if RawTotal(rows, nm) == 0.0 then Uniform
      else Normalise(RawWeight(rows, Severity, nm), RawWeight(rows, Tcs, nm), RawWeight(rows, Vei, nm), RawWeight(rows, Exploitability, nm))
  }

  lemma {:induction false} SumOfConstant(col: seq<real>, c: real)
    requires forall i :: 0 <= i < |col| ==> col[i] == c
    ensures Sum(col) == |col| as real * c
  {
    if |col| > 0 {
      SumOfConstant(col[1..], c);
    }
  }

  lemma {:induction false} SumPLogPOfConstant(col: seq<real>, total: real, ln: real -> real, t: real)
    requires total != 0.0
    requires forall i :: 0 <= i < |col| ==> ShareTerm(col[i], total, ln) == t
    ensures SumPLogP(col, total, ln) == |col| as real * t
  {
    if |col| > 0 {
      SumPLogPOfConstant(col[1..], total, ln, t);
    }
  }

  /**
   * A column whose entries are all the same non-zero value carries no information: its entropy
   * is exactly 1 and its raw weight 0. This uses ln(1/m) = -ln(m) for the row count m.
   */
  lemma ConstantColumnEarnsNothing(rows: seq<MetricRow>, m: Metric, nm: Numerics, c: real)
    requires Lawful(nm) && |rows| >= 2 && c != 0.0
    requires forall i :: 0 <= i < |rows| ==> rows[i].Get(m) == c
    requires nm.ln(1.0 / |rows| as real) == -nm.ln(|rows| as real)
    ensures RawWeight(rows, m, nm) == 0.0
  {
    var n := |rows| as real;
    var col := Column(rows, m);
    SumOfConstant(col, c);
    var total := Sum(col);
    ShareOfConstant(c, n, total);
    var t := (1.0 / n) * nm.ln(1.0 / n);
    assert forall i :: 0 <= i < |col| ==> ShareTerm(col[i], total, nm.ln) == t;
    SumPLogPOfConstant(col, total, nm.ln, t);
    assert nm.ln(n) > 0.0;
    UniformEntropyIsOne(n, nm.ln(n), nm.ln(1.0 / n));
  }

  /** n equal shares 1/n have entropy ln(n), which the scale 1/ln(n) turns into exactly 1. */
  lemma UniformEntropyIsOne(n: real, lnN: real, lnShare: real)
    requires n > 0.0 && lnN > 0.0 && lnShare == -lnN
    ensures 1.0 - (-(1.0 / lnN) * (n * ((1.0 / n) * lnShare))) == 0.0
  {
    assert n * ((1.0 / n) * lnShare) == (n * (1.0 / n)) * lnShare;
    assert (1.0 / lnN) * lnN == 1.0;
  }

  /** Each of n equal non-zero entries holds the share 1/n of their total. */
  lemma ShareOfConstant(c: real, n: real, total: real)
    requires c != 0.0 && n > 0.0 && total == n * c
    ensures total != 0.0 && c / total == 1.0 / n
  {
    var x := c / total;
    assert x * total == c;
    assert (1.0 / n) * total == c by {
      assert (1.0 / n) * (n * c) == ((1.0 / n) * n) * c;
    }
    assert (x - 1.0 / n) * total == 0.0;
  }

  /** A column that sums to zero gets weight zero once the raw weights are normalised. */
  lemma ZeroColumnGetsZeroWeight(rows: seq<MetricRow>, m: Metric, nm: Numerics)
    requires Lawful(nm) && |rows| >= 2
    requires Sum(Column(rows, m)) == 0.0
    requires RawTotal(rows, nm) != 0.0
    ensures CalculateEntropyWeights(rows, nm)[m.Key()] == 0.0
  {
    assert nm.ln(|rows| as real) > 0.0;
    assert RawWeight(rows, m, nm) == 0.0;
  }

  // ----- EPSS median -----

  /** The EPSS column of a list of vulnerabilities. */
  function EpssScores(vs: seq<Vulnerability>): (r: seq<real>)
    ensures |r| == |vs| && forall i :: 0 <= i < |vs| ==> r[i] == vs[i].epss
  {
    if |vs| == 0 then [] else [vs[0].epss] + EpssScores(vs[1..])
  }

  /** The dynamic baseline eta: 0.0 for no vulnerabilities, otherwise the median EPSS. */
  function CalculateEpssMedian(vs: seq<Vulnerability>, nm: Numerics): (r: real)
    requires Lawful(nm)
    ensures |vs| == 0 ==> r == 0.0
    ensures |vs| > 0 ==> exists i :: 0 <= i < |vs| && vs[i].epss <= r
    ensures |vs| > 0 ==> exists i :: 0 <= i < |vs| && r <= vs[i].epss
  {
    var scores := EpssScores(vs);
    if |scores| == 0 then 0.0
    else
      var r := nm.median(scores);
      assert Min(scores) <= r <= Max(scores);
      r
  }

  // ----- composite score -----

  /** `weights.get(key, default)`. */
  function WeightOr(w: map<string, real>, key: string, default: real): real {
    if key in w then w[key] else default
  }

  /** The weighted sum of the four metrics, with 0.3 / 0.3 / 0.1 / 0.3 for missing weights. */
  function BaseScore(v: Vulnerability, w: map<string, real>): real {
    v.exploitability * WeightOr(w, "exploitability", 0.3)
    + v.severity * WeightOr(w, "severity", 0.3)
    + v.vei * WeightOr(w, "vei", 0.1)
    + v.tcs * WeightOr(w, "tcs", 0.3)
  }

  /** Which of the four mutually exclusive contexts a vulnerability falls in. */
  datatype Branch = ActiveThreat | CriticalExposed | Exposed | Latent {

    function Multiplier(): real {
      match this
      case ActiveThreat => 1.5
      case CriticalExposed => 1.2
      case Exposed => 1.0
      case Latent => 0.5
    }
  }

  /** The first matching context: active threat, critical and exposed, exposed, else latent. */
  function SelectBranch(v: Vulnerability): (b: Branch)
    ensures b == ActiveThreat <==> v.cvssScore >= 9.8 && v.tcs >= 0.7 && v.exploitability >= 0.5
    ensures b == CriticalExposed <==> b != ActiveThreat && v.cvssScore >= 9.0 && v.vei >= 0.85 && v.tcs >= 0.5
    ensures b == Exposed <==> b != ActiveThreat && b != CriticalExposed && v.vei >= 0.8 && v.tcs >= 0.4
  {
    if v.cvssScore >= 9.8 && (v.tcs >= 0.7 && v.exploitability >= 0.5) then ActiveThreat
    else if v.cvssScore >= 9.0 && v.vei >= 0.85 && v.tcs >= 0.5 then CriticalExposed
    else if v.vei >= 0.8 && v.tcs >= 0.4 then Exposed
    else Latent
  }

  /**
   * The HDFM score: the base score scaled by the multiplier of the first matching branch.
   * `eta` is accepted and ignored.
   */
  function CalculateHdfmScore(v: Vulnerability, w: map<string, real>, eta: real): (r: real)
    ensures r == BaseScore(v, w) * SelectBranch(v).Multiplier()
    ensures BaseScore(v, w) >= 0.0 ==> 0.5 * BaseScore(v, w) <= r <= 1.5 * BaseScore(v, w)
  {
    var base := BaseScore(v, w);
    match SelectBranch(v)
    case ActiveThreat => base * 1.5
    case CriticalExposed => base * 1.2
    case Exposed => base * 1.0
    case Latent => base * 0.5
  }

  /** The baseline argument never changes the score. */
  lemma EtaIsIgnored(v: Vulnerability, w: map<string, real>, eta1: real, eta2: real)
    ensures CalculateHdfmScore(v, w, eta1) == CalculateHdfmScore(v, w, eta2)
  {
  }

  predicate NonNegativeWeights(w: map<string, real>) {
    forall k :: k in w ==> w[k] >= 0.0
  }

  predicate NonNegativeMetrics(v: Vulnerability) {
    v.severity >= 0.0 && v.tcs >= 0.0 && v.vei >= 0.0 && v.exploitability >= 0.0
  }

  /**
   * With non-negative weights and metrics, raising exploitability never lowers the score: it
   * raises the base, and only the branch with the largest multiplier looks at it.
   */
  lemma ScoreMonotoneInExploitability(v: Vulnerability, e: real, w: map<string, real>, eta: real)
    requires NonNegativeWeights(w) && NonNegativeMetrics(v) && v.exploitability <= e
    ensures CalculateHdfmScore(v, w, eta) <= CalculateHdfmScore(v.(exploitability := e), w, eta)
  {
    var u := v.(exploitability := e);
    BaseScoreMonotone(v, e, w);
    var b1, b2 := BaseScore(v, w), BaseScore(u, w);
    var m1, m2 := SelectBranch(v).Multiplier(), SelectBranch(u).Multiplier();
    assert m1 <= m2 by {
      if SelectBranch(v) == ActiveThreat {
        assert SelectBranch(u) == ActiveThreat;
      } else if SelectBranch(u) != ActiveThreat {
        assert SelectBranch(u) == SelectBranch(v);
      }
    }
    ProductMonotone(b1, m1, b2, m2);
  }

  lemma ProductMonotone(b1: real, m1: real, b2: real, m2: real)
    requires 0.0 <= b1 <= b2 && 0.0 <= m1 <= m2
    ensures b1 * m1 <= b2 * m2
  {
    assert b1 * m1 <= b1 * m2;
    assert b1 * m2 <= b2 * m2;
  }

  /** The base score is non-negative and grows with exploitability. */
  lemma BaseScoreMonotone(v: Vulnerability, e: real, w: map<string, real>)
    requires NonNegativeWeights(w) && NonNegativeMetrics(v) && v.exploitability <= e
    ensures 0.0 <= BaseScore(v, w) <= BaseScore(v.(exploitability := e), w)
  {
    var we, ws, wv, wt := WeightOr(w, "exploitability", 0.3), WeightOr(w, "severity", 0.3), WeightOr(w, "vei", 0.1), WeightOr(w, "tcs", 0.3);
    assert we >= 0.0 && ws >= 0.0 && wv >= 0.0 && wt >= 0.0;
    ProductMonotone(v.exploitability, we, e, we);
    ProductMonotone(0.0, ws, v.severity, ws);
    ProductMonotone(0.0, wv, v.vei, wv);
    ProductMonotone(0.0, wt, v.tcs, wt);
    ProductMonotone(0.0, we, v.exploitability, we);
  }

  // ----- static priority -----

  /** Static thresholds: above 0.8 CRITICAL, above 0.5 HIGH, above 0.3 MEDIUM, else LOW. */
  function AssignPriority(score: real): (p: Priority)
    ensures p == Critical <==> score > 0.8
    ensures p == High <==> 0.5 < score <= 0.8
    ensures p == Medium <==> 0.3 < score <= 0.5
    ensures p == Low <==> score <= 0.3
  {
    if score > 0.8 then Critical
    else if score > 0.5 then High
    else if score > 0.3 then Medium
    else Low
  }

  /** A higher score never earns a lower static priority. */
  lemma AssignPriorityMonotone(s1: real, s2: real)
    requires s1 <= s2
    ensures AssignPriority(s1).Rank() <= AssignPriority(s2).Rank()
  {
  }
}
