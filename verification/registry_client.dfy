/**
 * The deps.dev metadata client: the PURL parser and the per-component metadata lookup, with the
 * HTTP request and the timestamp parser passed in as functions.
 */
module RegistryClient {
  import opened Wrappers
  import opened Strings
  import opened Entities
  import OsvClient

  /** The PURL types deps.dev is asked about; each maps to the system of the same name. */
  const Systems: set<string> := {"npm", "pypi", "maven", "go", "cargo", "nuget"}

  lemma SystemsHaveNoSlash()
    ensures forall s :: s in Systems ==> '/' !in s
  {
  }

  /** The three parts of a PURL the lookup needs. */
  datatype PurlParts = PurlParts(system: string, name: string, version: string)

  /** The PURL a set of parts prints as. */
  function PurlOf(p: PurlParts): string {
    "pkg:" + (p.system + ("/" + (p.name + ("@" + p.version))))
  }

  /** A string is its part before position `i`, the character there, and the part after. */
  lemma SplitAt(s: string, i: nat)
    requires i < |s|
    ensures s == s[..i] + ([s[i]] + s[i + 1..])
  {
    assert s[i..] == [s[i]] + s[i + 1..];
    assert s == s[..i] + s[i..];
  }

  /** `body.split('/', 1)` when it has two parts: the text before the first '/' and after it. */
  function SplitType(body: string): (r: Option<(string, string)>)
    ensures r.None? <==> '/' !in body
    ensures r.Some? ==> body == r.value.0 + ("/" + r.value.1) && '/' !in r.value.0
  {
    match IndexOf(body, '/')
    case None => None
    case Some(i) =>
      SplitAt(body, i);
      Some((body[..i], body[i + 1..]))
  }

  /** `rest.rsplit('@', 1)` when it has two parts: the text before the last '@' and after it. */
  function SplitVersion(rest: string): (r: Option<(string, string)>)
    ensures r.None? <==> '@' !in rest
    ensures r.Some? ==> rest == r.value.0 + ("@" + r.value.1) && '@' !in r.value.1
  {
    match LastIndexOf(rest, '@')
    case None => None
    case Some(j) =>
      SplitAt(rest, j);
      Some((rest[..j], rest[j + 1..]))
  }

  /**
   * `_parse_purl`: after "pkg:", the type runs to the first '/', must be a known system, and the
   * rest splits at its last '@' into name and version. Every failure, including a PURL without
   * a '/', gives `None`.
   */
  function ParsePurl(purl: string): (r: Option<PurlParts>)
    ensures !StartsWith(purl, "pkg:") ==> r.None?
    ensures r.Some? ==> r.value.system in Systems && '@' !in r.value.version
  {
    if !StartsWith(purl, "pkg:") then None
    else
      match SplitType(purl[4..])
      case None => None
      case Some((t, rest)) =>
        if t !in Systems then None
        else
          match SplitVersion(rest)
          case None => None
          case Some((n, v)) => Some(PurlParts(t, n, v))
  }

  /** Whatever the parser accepts prints back as the same string. */
  lemma ParsePurlSound(purl: string)
    requires ParsePurl(purl).Some?
    ensures purl == PurlOf(ParsePurl(purl).value)
  {
    var body := purl[4..];
    var (t, rest) := SplitType(body).value;
    var (n, v) := SplitVersion(rest).value;
    assert ParsePurl(purl).value == PurlParts(t, n, v);
    PrefixRest(purl, "pkg:");
    assert body == t + ("/" + rest);
    assert rest == n + ("@" + v);
  }

  /** A string that starts with a prefix is the prefix followed by the rest. */
  lemma PrefixRest(s: string, prefix: string)
    requires StartsWith(s, prefix)
    ensures s == prefix + s[|prefix|..]
  {
    assert s[..|prefix|] == prefix;
    assert s == s[..|prefix|] + s[|prefix|..];
  }

  /** Splitting a system-free prefix off at the first '/' gives back the two parts. */
  lemma SplitTypeOf(t: string, tail: string)
    requires '/' !in t
    ensures SplitType(t + ("/" + tail)) == Some((t, tail))
  {
    var s := t + ("/" + tail);
    assert forall m :: 0 <= m < |t| ==> s[m] == t[m];
    IndexOfIsFirst(s, '/', |t|);
    assert s[..|t|] == t;
    assert s[|t| + 1..] == tail;
  }

  /** Splitting at the last '@' when the version has none gives back name and version. */
  lemma SplitVersionOf(n: string, v: string)
    requires '@' !in v
    ensures SplitVersion(n + ("@" + v)) == Some((n, v))
  {
    var w := "@" + v;
    var s := n + w;
    forall m | |n| < m < |s| ensures s[m] != '@' {
      assert s[m] == w[m - |n|];
      assert w[m - |n|] == v[m - |n| - 1];
    }
    LastIndexOfIsLast(s, '@', |n|);
    assert s[..|n|] == n;
    assert s[|n| + 1..] == v;
  }

  /**
   * Every PURL of a known system whose version has no '@' parses back into its parts: with
   * `ParsePurlSound`, the parser accepts exactly these strings.
   */
  lemma ParsePurlRoundTrip(p: PurlParts)
    requires p.system in Systems && '@' !in p.version
    ensures ParsePurl(PurlOf(p)) == Some(p)
  {
    SystemsHaveNoSlash();
    var tail := p.name + ("@" + p.version);
    var purl := PurlOf(p);
    assert purl[..4] == "pkg:" && purl[4..] == p.system + ("/" + tail);
    SplitTypeOf(p.system, tail);
    SplitVersionOf(p.name, p.version);
  }

  /**
   * The PURLs the OSV client builds for components without one parse back into the guessed
   * ecosystem, the name and the version, unless the version holds an '@'.
   */
  lemma ConstructedPurlParses(c: Component)
    requires OsvClient.ConstructPurl(c).Some? && OsvClient.ConstructPurl(c).value != c.bomRef
    requires '@' !in c.version
    ensures ParsePurl(OsvClient.ConstructPurl(c).value)
      == Some(PurlParts(OsvClient.Ecosystem(c), c.name, c.version))
  {
    var p := PurlParts(OsvClient.Ecosystem(c), c.name, c.version);
    assert OsvClient.ConstructPurl(c).value == "pkg:" + p.system + "/" + p.name + "@" + p.version;
    assert OsvClient.ConstructPurl(c).value == PurlOf(p);
    ParsePurlRoundTrip(p);
  }

  /**
   * The request `get_metadata` makes for a component: none without a truthy PURL, or when the
   * PURL does not parse into three non-empty parts.
   */
  function MetadataQuery(c: Component): (r: Option<PurlParts>)
    ensures r.Some? <==> (TruthyOpt(c.purl) && ParsePurl(c.purl.value).Some?
      && Truthy(ParsePurl(c.purl.value).value.system) && Truthy(ParsePurl(c.purl.value).value.name)
      && Truthy(ParsePurl(c.purl.value).value.version))
    ensures r.Some? ==> r == ParsePurl(c.purl.value) && c.purl == Some(PurlOf(r.value))
  {
    if !TruthyOpt(c.purl) then None
    else
      match ParsePurl(c.purl.value)
      case None => None
      case Some(p) =>
        ParsePurlSound(c.purl.value);
        if p.system == "" || p.name == "" || p.version == "" then None else Some(p)
  }

  /** The fields of a deps.dev version record the client reads; `isDeprecated` defaults to false. */
  datatype VersionInfo = VersionInfo(publishedAt: Option<string>, isDeprecated: bool)

  /** What the client reports per component. */
  datatype Metadata = Metadata(publishedAt: Option<Published>, isDeprecated: bool)

  /**
   * The metadata kept from one response: the timestamp, when truthy, goes through `parseTime`
   * (`None` when it is not ISO 8601); the deprecation flag is copied.
   */
  function ReadVersionInfo(info: VersionInfo, parseTime: string -> Option<Published>): (m: Metadata)
    ensures m.isDeprecated == info.isDeprecated
    ensures !TruthyOpt(info.publishedAt) ==> m.publishedAt.None?
    ensures TruthyOpt(info.publishedAt) ==> m.publishedAt == parseTime(info.publishedAt.value)
  {
    Metadata(if TruthyOpt(info.publishedAt) then parseTime(info.publishedAt.value) else None,
      info.isDeprecated)
  }

  /** The component's metadata, when its request is made and answered. */
  function Answer(c: Component, fetch: PurlParts -> Option<VersionInfo>): Option<VersionInfo> {
    match MetadataQuery(c)
    case None => None
    case Some(q) => fetch(q)
  }

  /** `Answer` with the endpoint fixed: what each component's request is answered. */
  function Answerer(fetch: PurlParts -> Option<VersionInfo>): Component -> Option<VersionInfo> {
    c => Answer(c, fetch)
  }

  /** Component `j` is answered and no later component with its bom-ref is. */
  predicate LastAnswered(cs: seq<Component>, j: int, answer: Component -> Option<VersionInfo>) {
    0 <= j < |cs| && answer(cs[j]).Some?
    && forall j' :: j < j' < |cs| && cs[j'].bomRef == cs[j].bomRef ==> answer(cs[j']).None?
  }

  /**
   * `get_metadata`, one request per component in order, with the HTTP request as `fetch`
   * (`None` for a non-200 answer or a failed request). Every key is the bom-ref of an answered
   * component, and holds what the last answered component with that bom-ref was told.
   */
  function GetMetadata(cs: seq<Component>, fetch: PurlParts -> Option<VersionInfo>,
                       parseTime: string -> Option<Published>): (r: map<string, Metadata>)
    ensures forall k :: k in r ==> exists j :: LastAnswered(cs, j, Answerer(fetch)) && cs[j].bomRef == k
    ensures forall j :: LastAnswered(cs, j, Answerer(fetch)) ==>
      cs[j].bomRef in r && r[cs[j].bomRef] == ReadVersionInfo(Answer(cs[j], fetch).value, parseTime)
    decreases |cs|
  {
    if |cs| == 0 then map[]
    else
      var init := cs[..|cs| - 1];
      var before := GetMetadata(init, fetch, parseTime);
      var c := cs[|cs| - 1];
      var r := match MetadataQuery(c)
        case None => before
        case Some(q) =>
          match fetch(q)
          case None => before
          case Some(info) => before[c.bomRef := ReadVersionInfo(info, parseTime)];
      assert Answerer(fetch)(c) == Answer(c, fetch);
      GetMetadataStep(cs, init, Answerer(fetch), parseTime, before, r);
      r
  }

  /** The entries after the last request follow from those before it and the last answer. */
  lemma GetMetadataStep(cs: seq<Component>, init: seq<Component>, answer: Component -> Option<VersionInfo>,
                        parseTime: string -> Option<Published>, before: map<string, Metadata>, r: map<string, Metadata>)
    requires |cs| > 0 && init == cs[..|cs| - 1]
    requires forall k :: k in before ==> exists j :: LastAnswered(init, j, answer) && init[j].bomRef == k
    requires forall j :: LastAnswered(init, j, answer) ==>
      init[j].bomRef in before && before[init[j].bomRef] == ReadVersionInfo(answer(init[j]).value, parseTime)
    requires answer(cs[|cs| - 1]).None? ==> r == before
    requires answer(cs[|cs| - 1]).Some? ==>
      r == before[cs[|cs| - 1].bomRef := ReadVersionInfo(answer(cs[|cs| - 1]).value, parseTime)]
    ensures forall k :: k in r ==> exists j :: LastAnswered(cs, j, answer) && cs[j].bomRef == k
    ensures forall j :: LastAnswered(cs, j, answer) ==>
      cs[j].bomRef in r && r[cs[j].bomRef] == ReadVersionInfo(answer(cs[j]).value, parseTime)
  {
    var n := |cs| - 1;
    forall k | k in r ensures exists j :: LastAnswered(cs, j, answer) && cs[j].bomRef == k {
      if answer(cs[n]).Some? && k == cs[n].bomRef {
        assert LastAnswered(cs, n, answer);
      } else {
        var j :| LastAnswered(init, j, answer) && init[j].bomRef == k;
        LastAnsweredExtends(cs, init, j, answer);
      }
    }
    forall j | LastAnswered(cs, j, answer)
      ensures cs[j].bomRef in r && r[cs[j].bomRef] == ReadVersionInfo(answer(cs[j]).value, parseTime)
    {
      if j < n {
        assert cs[j] == init[j];
        assert LastAnswered(init, j, answer) by {
          forall j' | j < j' < |init| && init[j'].bomRef == init[j].bomRef ensures answer(init[j']).None? {
            assert init[j'] == cs[j'];
          }
        }
        assert answer(cs[n]).Some? ==> cs[n].bomRef != cs[j].bomRef;
      }
    }
  }

  /** The last answered component of a prefix stays last when the next component is not an answered namesake. */
  lemma LastAnsweredExtends(cs: seq<Component>, init: seq<Component>, j: int, answer: Component -> Option<VersionInfo>)
    requires |cs| > 0 && init == cs[..|cs| - 1]
    requires LastAnswered(init, j, answer)
    requires answer(cs[|cs| - 1]).Some? ==> cs[|cs| - 1].bomRef != init[j].bomRef
    ensures LastAnswered(cs, j, answer) && cs[j] == init[j]
  {
    forall j' | j < j' < |cs| && cs[j'].bomRef == cs[j].bomRef ensures answer(cs[j']).None? {
      if j' < |cs| - 1 {
        assert cs[j'] == init[j'];
      }
    }
  }

  /** Two component lists that agree on every bom-ref and PURL make the same requests and get the same answers. */
  predicate SameRequests(a: seq<Component>, b: seq<Component>) {
    |a| == |b| && forall i :: 0 <= i < |a| ==> a[i].bomRef == b[i].bomRef && a[i].purl == b[i].purl
  }

  /** Which components are last answered depends only on bom-refs and PURLs. */
  lemma LastAnsweredOnlyReadsRequests(a: seq<Component>, b: seq<Component>, fetch: PurlParts -> Option<VersionInfo>)
    requires SameRequests(a, b)
    ensures forall j :: 0 <= j < |a| ==> Answer(a[j], fetch) == Answer(b[j], fetch)
    ensures forall j :: LastAnswered(a, j, Answerer(fetch)) <==> LastAnswered(b, j, Answerer(fetch))
  {
    forall j | 0 <= j < |a| ensures Answer(a[j], fetch) == Answer(b[j], fetch) {
      assert MetadataQuery(a[j]) == MetadataQuery(b[j]);
    }
  }
}
