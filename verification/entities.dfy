/**
 * Domain entities: priorities, components, vulnerabilities and the analysis result, with the
 * constructor defaults and the string-to-number coercion a vulnerability applies to its fields.
 */
module Entities {
  import opened Wrappers
  import opened Strings

  /** The four priority levels, in decreasing urgency. */
  datatype Priority = Critical | High | Medium | Low {

    /** The enum member's string value. */
    function Value(): string {
      match this
      case Critical => "CRITICAL"
      case High => "HIGH"
      case Medium => "MEDIUM"
      case Low => "LOW"
    }

    /** Urgency as a number, so that levels can be compared: LOW is 0 and CRITICAL is 3. */
    function Rank(): nat {
      match this
      case Low => 0
      case Medium => 1
      case High => 2
      case Critical => 3
    }
  }

  /** A publication date as the registry reported it, and its age in years at analysis time. */
  datatype Published = Published(iso: string, ageYears: real)

  /** One advisory affecting one component, with the metrics the scoring pipeline fills in. */
  datatype Vulnerability = Vulnerability(
    id: string,
    componentRef: string,
    componentName: string,
    cvssScore: real,
    cvssVector: string,
    description: string,
    severity: real,
    tcs: real,
    vei: real,
    epss: real,
    kev: bool,
    exploitability: real,
    hdfmScore: real,
    priority: Priority)

  /**
   * A software component of the inventory. `scope` stands for the attribute the graph code reads
   * with `getattr(comp, 'scope', None)`: the entity declares no such field, so nothing that
   * builds a component sets it and it is `None` unless a caller attaches one.
   */
  datatype Component = Component(
    bomRef: string,
    name: string,
    version: string,
    purl: Option<string>,
    vulnerabilities: seq<Vulnerability>,
    publishedAt: Option<Published>,
    isDeprecated: bool,
    maintenanceRisk: real,
    scope: Option<string>)

  /** The aggregate an analysis run produces. */
  datatype AnalysisResult = AnalysisResult(
    sbomId: string,
    timestamp: string,
    totalComponents: nat,
    totalVulnerabilities: nat,
    criticalFindings: nat,
    hubComponents: nat,
    maxDepth: nat,
    vulnerabilities: seq<Vulnerability>,
    entropyWeights: map<string, real>)

  /** A component built the way the entity's constructor defaults it. */
  function NewComponent(bomRef: string, name: string, version: string, purl: Option<string> := None): (c: Component)
    ensures c.bomRef == bomRef && c.name == name && c.version == version && c.purl == purl
    ensures c.vulnerabilities == [] && !c.isDeprecated && c.maintenanceRisk == 0.0
    ensures c.publishedAt.None? && c.scope.None?
  {
    Component(bomRef, name, version, purl, [], None, false, 0.0, None)
  }

  /** Components hash by their `bom_ref` alone. */
  function ComponentKey(c: Component): string {
    c.bomRef
  }

  /** Vulnerabilities hash by their `id` alone. */
  function VulnerabilityKey(v: Vulnerability): string {
    v.id
  }

  /** Two components or two vulnerabilities that agree on their identity hash alike, whatever else differs. */
  lemma KeysIgnoreOtherFields(c1: Component, c2: Component, v1: Vulnerability, v2: Vulnerability)
    requires c1.bomRef == c2.bomRef && v1.id == v2.id
    ensures ComponentKey(c1) == ComponentKey(c2) && VulnerabilityKey(v1) == VulnerabilityKey(v2)
  {
  }

  // ----- numeric coercion -----

  /** A numeric constructor argument as it may arrive from JSON or CSV: a number or a string. */
  datatype FieldValue = Number(x: real) | Text(s: string)

  /** The `kev` constructor argument: a boolean or a string. */
  datatype FlagValue = Flag(b: bool) | FlagText(s: string)

  predicate IsDigit(c: char) {
    '0' <= c <= '9'
  }

  predicate AllDigits(s: string) {
    forall i :: 0 <= i < |s| ==> IsDigit(s[i])
  }

  /** The value of a string of decimal digits, most significant first. */
  function DigitsValue(s: string): nat
    requires AllDigits(s)
  {
    if |s| == 0 then 0 else DigitsValue(s[..|s| - 1]) * 10 + (s[|s| - 1] as int - '0' as int)
  }

  function Pow10(n: nat): (r: nat)
    ensures r >= 1
  {
    if n == 0 then 1 else 10 * Pow10(n - 1)
  }

  /** `10 ** e` as a real, for a possibly negative exponent. */
  function Scale(e: int): (r: real)
    ensures r > 0.0
  {
    if e >= 0 then Pow10(e) as real else 1.0 / Pow10(-e) as real
  }

  /** Digits with at most one decimal point and at least one digit: `12`, `1.5`, `.5`, `3.`. */
  function ParseMantissa(m: string): Option<real> {
    var dot := IndexOf(m, '.');
    var whole := if dot.None? then m else m[..dot.value];
    var frac := if dot.None? then "" else m[dot.value + 1..];
    if AllDigits(whole) && AllDigits(frac) && |whole| + |frac| > 0 then
      Some(DigitsValue(whole) as real + DigitsValue(frac) as real / Pow10(|frac|) as real)
    else
      None
  }

  /** An optionally signed, non-empty digit string: the part after `e` or `E`. */
  function ParseExponent(e: string): Option<int> {
    if |e| > 0 && (e[0] == '+' || e[0] == '-') then
      if |e| > 1 && AllDigits(e[1..]) then
        Some(if e[0] == '-' then -(DigitsValue(e[1..]) as int) else DigitsValue(e[1..]) as int)
      else None
    else if |e| > 0 && AllDigits(e) then Some(DigitsValue(e) as int)
    else None
  }

  /** Position of the first exponent marker `e` or `E`. */
  function IndexOfExponent(s: string): (r: Option<nat>)
    ensures r.Some? ==> r.value < |s|
    ensures r.None? <==> 'e' !in s && 'E' !in s
  {
    if |s| == 0 then None
    else if s[0] == 'e' || s[0] == 'E' then Some(0)
    else
      match IndexOfExponent(s[1..])
      case None => None
      case Some(i) => Some(i + 1)
  }

  /** A decimal number without a sign, with an optional exponent. */
  function ParseUnsigned(t: string): Option<real> {
    match IndexOfExponent(t)
    case None => ParseMantissa(t)
    case Some(i) =>
      match (ParseMantissa(t[..i]), ParseExponent(t[i + 1..]))
      case (Some(m), Some(e)) => Some(m * Scale(e))
      case _ => None
  }

  /**
   * `float(s)` for decimal notation: surrounding white space, an optional sign, digits with an
   * optional point and an optional exponent. `None` is the `ValueError` case.
   */
  function ParseFloat(s: string): Option<real> {
    var t := Strip(s);
    if |t| > 0 && t[0] == '-' then
      match ParseUnsigned(t[1..])
      case Some(x) => Some(-x)
      case None => None
    else if |t| > 0 && t[0] == '+' then ParseUnsigned(t[1..])
    else ParseUnsigned(t)
  }

  /** The decimal digits of `n`, most significant first, as `str(n)` writes them. */
  function NatToString(n: nat): (s: string)
    ensures |s| > 0 && AllDigits(s)
  {
    if n < 10 then ['0' + n as char]
    else NatToString(n / 10) + ['0' + (n % 10) as char]
  }

  lemma {:induction false} DigitsOfNatToString(n: nat)
    ensures DigitsValue(NatToString(n)) == n
  {
    if n >= 10 {
      var s := NatToString(n);
      assert s[..|s| - 1] == NatToString(n / 10);
      DigitsOfNatToString(n / 10);
    }
  }

  /** Reading back the decimal text of a natural number gives that number. */
  lemma ParseFloatOfNatural(n: nat)
    ensures ParseFloat(NatToString(n)) == Some(n as real)
  {
    DigitsParse(NatToString(n));
    DigitsOfNatToString(n);
  }

  /** A non-empty string of digits parses as the number it spells. */
  lemma DigitsParse(s: string)
    requires |s| > 0 && AllDigits(s)
    ensures ParseFloat(s) == Some(DigitsValue(s) as real)
  {
    assert IsDigit(s[0]) && IsDigit(s[|s| - 1]);
    assert Strip(s) == s;
    assert ParseFloat(s) == ParseUnsigned(s);
    forall i | 0 <= i < |s| ensures s[i] != '.' && s[i] != 'e' && s[i] != 'E' {
      assert IsDigit(s[i]);
    }
    assert IndexOfExponent(s).None?;
    DigitsMantissa(s);
  }

  /** A non-empty string of digits is a mantissa without a fraction. */
  lemma DigitsMantissa(s: string)
    requires |s| > 0 && AllDigits(s) && '.' !in s
    ensures ParseMantissa(s) == Some(DigitsValue(s) as real)
  {
    assert IndexOf(s, '.').None?;
    assert DigitsValue("") == 0;
  }

  /**
   * A string-valued numeric field becomes its float parse, or 0.0 when it does not parse;
   * a number is left as it is.
   */
  function CoerceFloat(v: FieldValue): (r: real)
    ensures v.Number? ==> r == v.x
    ensures v.Text? ==> (ParseFloat(v.s).Some? ==> r == ParseFloat(v.s).value) && (ParseFloat(v.s).None? ==> r == 0.0)
  {
    match v
    case Number(x) => x
    case Text(s) => ParseFloat(s).GetOr(0.0)
  }

  /** The `severity="INFO"` a placeholder is built with does not parse, so it becomes 0.0. */
  lemma InfoCoercesToZero()
    ensures CoerceFloat(Text("INFO")) == 0.0
  {
    var s := "INFO";
    assert !IsSpace(s[0]) && !IsSpace(s[3]);
    assert Strip(s) == s;
    assert 'e' !in s && 'E' !in s && '.' !in s;
    assert !IsDigit(s[0]);
    assert ParseMantissa(s).None?;
  }

  /** The spellings a string `kev` must lower-case to in order to mean true. */
  const TrueSpellings: set<string> := {"true", "1", "t", "yes"}

  /** A string `kev` is true iff its lower-case form is one of `TrueSpellings`; a boolean is kept. */
  function CoerceKev(v: FlagValue): (r: bool)
    ensures v.Flag? ==> r == v.b
    ensures v.FlagText? ==> (r <==> Lower(v.s) in TrueSpellings)
  {
    match v
    case Flag(b) => b
    case FlagText(s) => Lower(s) in TrueSpellings
  }

  /** Upper-casing a `kev` string first does not change what it coerces to. */
  lemma KevIgnoresCase(s: string)
    ensures CoerceKev(FlagText(Upper(s))) == CoerceKev(FlagText(s))
  {
    assert Lower(Upper(s)) == Lower(s) by {
      forall i | 0 <= i < |s| ensures Lower(Upper(s))[i] == Lower(s)[i] {
        assert Upper(s)[i] == UpperChar(s[i]);
        LowerOfUpper(s[i]);
      }
    }
  }

  /** Lower-casing after upper-casing is lower-casing. */
  lemma LowerOfUpper(c: char)
    ensures LowerChar(UpperChar(c)) == LowerChar(c)
  {
  }

  /**
   * A vulnerability built with the entity's defaults: metrics 0.0, `kev` false, priority LOW,
   * with `cvss_score` and `severity` coerced from strings where needed.
   */
  function NewVulnerability(
    id: string, componentRef: string, componentName: string,
    cvssScore: FieldValue, cvssVector: string, description: string,
    severity: FieldValue := Number(0.0)): (v: Vulnerability)
    ensures v.id == id && v.componentRef == componentRef && v.componentName == componentName
    ensures v.cvssVector == cvssVector && v.description == description
    ensures v.cvssScore == CoerceFloat(cvssScore) && v.severity == CoerceFloat(severity)
    ensures v.tcs == 0.0 && v.vei == 0.0 && v.epss == 0.0 && !v.kev && v.exploitability == 0.0
    ensures v.hdfmScore == 0.0 && v.priority == Low
  {
    Vulnerability(id, componentRef, componentName, CoerceFloat(cvssScore), cvssVector, description,
      CoerceFloat(severity), 0.0, 0.0, 0.0, false, 0.0, 0.0, Low)
  }
}
