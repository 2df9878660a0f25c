# lightweight_hdfm in Dafny

A Dafny model of the Hybrid Decision-Fusion Model (HDFM) vulnerability prioritiser. The model covers these stages:

- It reads a CycloneDX-style SBOM into components.
- It looks the components up in OSV.dev (by PURL, with hydration and CVE/GHSA deduplication) and in deps.dev (publication date and deprecation, turned into a maintenance risk).
- It scores every finding:
  - topological criticality (TCS) from in-degree and scope;
  - exposure (VEI) from the CVSS vector;
  - exploitability as the fusion of EPSS and KEV;
  - Shannon-entropy weights over the metric table;
  - a branching composite score.
- It keeps the best finding per component, sorts by score and assigns priorities against percentile thresholds with fixed floors.
- It reports the maximum breadth-first depth of the dependency graph.
- It models the two scenario generators that produce the example SBOMs.

The model is pure. Every operation is a function over immutable datatypes. The two graph algorithms with loops are methods, and each is proved equal to a functional definition. Everything outside the program is passed in as a function-valued parameter:

- the OSV batch and by-id endpoints (`respond`, `fetch`);
- the deps.dev endpoint (`fetch`);
- the ISO-8601 timestamp parser (`parseTime`), with the age in years precomputed in `Published`;
- the EPSS/KEV feeds (`ThreatIntel`);
- the numeric library routines `np.log`, `np.median` and `np.percentile` (`Numerics`).

The numeric routines are constrained only by the bounds in `Numerics.Lawful`: the logarithm of a number above one is positive, and a median or percentile lies between the minimum and the maximum.

Modules follow the source files:

| module | file |
|---|---|
| `Wrappers`, `Strings`, `Numerics`, `Sbom` | shared: Option/Result, string helpers, the library routines, the JSON document shapes |
| `Entities` | core/entities.py |
| `Exceptions` | core/exceptions.py |
| `HdfmModel` | core/hdfm_model.py |
| `GraphAnalyzer` | infrastructure/graph/networkx_adapter.py |
| `OsvClient` | infrastructure/clients/osv_client.py |
| `RegistryClient` | infrastructure/clients/registry_client.py |
| `Ingestion` | application/service/ingestion_service.py |
| `Prioritization` | application/service/prioritization_service.py |
| `ScenarioA`, `ScenarioB` | generator/scenarioA.py, generator/scenarioB.py |

Some facts about the code are worth stating up front:

- TCS is the mean of two terms: the in-degree normalised by the largest in-degree, and a scope priority.
- The entropy weights use the natural logarithm of each row's share of the column total.
- The ranking keeps one finding per component *name*. It sorts stably by score and buckets against percentile thresholds.
- A pipeline error is swallowed, and `analyze` returns nothing. In the model that result is `None`.
- `OsvClient.Mode` selects the program as written (`AsWritten`) or with the two defects under "## Findings" corrected (`Corrected`). The OSV batch lookup and `Ingestion.ParseSbom` take it as a parameter.

## Model

| member | source | states |
|---|---|---|
| Entities.NewComponent | core/entities.py:14-24 | a new component keeps its identity fields and has no vulnerabilities, no publication date, no deprecation, risk 0 and no scope |
| Entities.CoerceFloat | core/entities.py:57-71 | a numeric field given as a string becomes its float parse, or 0.0 when the string does not parse; a number is kept |
| Entities.ParseFloatOfNatural | core/entities.py:63-68 | the float parser reads the decimal text of every natural number back as that number |
| Entities.InfoCoercesToZero | core/entities.py:63-71 | the string "INFO" does not parse as a float, so it coerces to 0.0 |
| Entities.CoerceKev | core/entities.py:73-75 | a string `kev` is true exactly when its lower-case form is "true", "1", "t" or "yes"; a boolean is kept |
| Entities.KevIgnoresCase | core/entities.py:73-75 | upper-casing a `kev` string does not change what it coerces to |
| Entities.NewVulnerability | core/entities.py:29-75 | a new vulnerability keeps its identity and text fields, coerces score and severity, and starts with every metric 0, `kev` false and priority LOW |
| Exceptions.NewHdfmException | core/exceptions.py:3-7 | the base exception keeps its message and its error code, which defaults to HDFM-GENERIC |
| Exceptions.Render | core/exceptions.py:9-10 | the printed form is the code in brackets, a space, then the message, and both can be read back from it |
| Exceptions.NewInvalidSbomException | core/exceptions.py:13-21 | the SBOM exception has code HDFM-SBOM-001; its message names the field when `missing_field` is truthy, and carries the reason otherwise |
| Exceptions.NewAnalysisException | core/exceptions.py:25-33 | the analysis exception has code HDFM-MATH-ERR and names phase and details, and the CVE only when one is given |
| Exceptions.RenderedSbomPrefix | core/exceptions.py:9-21 | every printed SBOM exception starts with "[HDFM-SBOM-001] SBOM validation failed: " |
| HdfmModel.CalculateVei | core/hdfm_model.py:11-28 | the exposure is 0.5 for an empty vector; otherwise it is that of the first of AV:N, AV:A, AV:L, AV:P (0.85, 0.6, 0.3, 0.1) found in the vector, else 0.5 |
| HdfmModel.ExposureTableOrder | core/hdfm_model.py:17-26 | the exposure table is scanned in the order AV:N, AV:A, AV:L, AV:P |
| HdfmModel.CalculateExploitabilityFusion | core/hdfm_model.py:30-34 | the fusion is 1 for a KEV-listed vulnerability and the EPSS value otherwise, and it is at least EPSS and at most 1 when EPSS lies in [0,1] |
| HdfmModel.CalculateEntropyWeights | core/hdfm_model.py:36-64 | there is one weight per metric and the weights sum to 1; they are uniform for at most one row or a zero total, and otherwise each is its raw weight over the total |
| HdfmModel.Normalise | core/hdfm_model.py:59-64 | raw weights divided by a non-zero total sum to one |
| HdfmModel.ConstantColumnEarnsNothing | core/hdfm_model.py:47-57 | a column holding one non-zero value in every row has raw weight 0 |
| HdfmModel.ZeroColumnGetsZeroWeight | core/hdfm_model.py:47-64 | a column that sums to zero ends with weight zero whenever the weights are not the uniform fallback |
| HdfmModel.CalculateEpssMedian | core/hdfm_model.py:66-72 | the baseline is 0.0 without vulnerabilities and otherwise lies between the smallest and largest EPSS |
| HdfmModel.SelectBranch | core/hdfm_model.py:88-105 | the branches are mutually exclusive and tried in order: active threat, critical-and-exposed, exposed, else latent |
| HdfmModel.CalculateHdfmScore | core/hdfm_model.py:74-106 | the score is the base score times the chosen branch's multiplier, so it lies between half and one and a half times a non-negative base |
| HdfmModel.EtaIsIgnored | core/hdfm_model.py:74-106 | the baseline argument never changes the score |
| HdfmModel.ScoreMonotoneInExploitability | core/hdfm_model.py:80-106 | with non-negative weights and metrics, raising exploitability never lowers the score, even when it changes the branch |
| HdfmModel.BaseScoreMonotone | core/hdfm_model.py:81-86 | the base score is non-negative and grows with exploitability |
| HdfmModel.AssignPriority | core/hdfm_model.py:108-117 | the static thresholds: above 0.8 is CRITICAL, above 0.5 HIGH, above 0.3 MEDIUM, else LOW |
| HdfmModel.AssignPriorityMonotone | core/hdfm_model.py:108-117 | a higher score never gets a lower static priority |
| GraphAnalyzer.InDegree | infrastructure/graph/networkx_adapter.py:15-20 | the in-degree counts every listing of the reference as a target, duplicates included, and is positive exactly when it is listed at all |
| GraphAnalyzer.MaxInDegree | infrastructure/graph/networkx_adapter.py:22 | the normaliser is positive and at least every in-degree; it is 1 when nothing is a target, and otherwise equals some target's in-degree |
| GraphAnalyzer.ScopePriority | infrastructure/graph/networkx_adapter.py:37-44 | 'required' gives 1.0, 'optional' 0.5, any other value or none 0.6 |
| GraphAnalyzer.ComponentTcs | infrastructure/graph/networkx_adapter.py:26-47 | the TCS is exactly the mean of the in-degree over the largest in-degree and the scope priority; it lies in [0.25, 1] and is half the scope priority when nothing depends on the component |
| GraphAnalyzer.CalculateTcs | infrastructure/graph/networkx_adapter.py:13-49 | the keys are exactly the components' bom-refs; each holds the score of the last component with that reference, in [0.25, 1] |
| GraphAnalyzer.UnscopedTcs | infrastructure/graph/networkx_adapter.py:37-47 | without a scope the TCS is (normalised in-degree + 0.6) / 2 |
| GraphAnalyzer.EdgesOf | infrastructure/graph/networkx_adapter.py:53-60 | building the graph fails exactly when an entry without `ref` lists targets; otherwise there is one edge per listed target |
| GraphAnalyzer.Eccentricity | infrastructure/graph/networkx_adapter.py:73-74 | the eccentricity is a radius, from the given start on, at which the ball of reachable nodes stops growing |
| GraphAnalyzer.EccUnique | infrastructure/graph/networkx_adapter.py:73-74 | any radius at which the ball first stops growing is the eccentricity |
| GraphAnalyzer.EccBound | infrastructure/graph/networkx_adapter.py:73-74 | from a node of the graph, no shortest-path distance exceeds the node count minus one |
| GraphAnalyzer.BfsDepth | infrastructure/graph/networkx_adapter.py:73-74 | level-by-level breadth-first search returns the eccentricity of its start node, also on cyclic graphs |
| GraphAnalyzer.Roots | infrastructure/graph/networkx_adapter.py:66 | the roots are exactly the graph's nodes with in-degree 0 |
| GraphAnalyzer.MaxEcc | infrastructure/graph/networkx_adapter.py:70-74 | the maximum eccentricity over the roots bounds each of them and is attained by one (0 for none) |
| GraphAnalyzer.MaxDepth | infrastructure/graph/networkx_adapter.py:51-80 | it fails on an entry without `ref` that lists targets; it is 0 without edges or roots; otherwise it is the largest root eccentricity, at most the node count minus one |
| GraphAnalyzer.MaxEccOfRoots | infrastructure/graph/networkx_adapter.py:66-78 | over the roots of a non-empty graph, the maximum bounds every root's depth and is at most the node count minus one |
| GraphAnalyzer.CalculateMaxDepth | infrastructure/graph/networkx_adapter.py:51-80 | the loop with one breadth-first search per root computes the same depth as `MaxDepth` |
| OsvClient.AttackVectorBonus | infrastructure/clients/osv_client.py:241-243 | the attack-vector bonus is 3 with AV:N, else 2 with AV:A, else 1 with AV:L, else 0 |
| OsvClient.ParseCvssScore | infrastructure/clients/osv_client.py:238-249 | the heuristic score is 0 for an empty vector and otherwise the sum of the substring bonuses capped at 10 |
| OsvClient.CvssCapNeverBinds | infrastructure/clients/osv_client.py:240-249 | the bonuses sum to at most 10, so the cap never changes a score |
| OsvClient.NetworkLowComplexityNoPrivilege | infrastructure/clients/osv_client.py:241-245 | a vector with AV:N, AC:L and PR:N scores at least 7 |
| OsvClient.HighComplexityReadsAsConfidentialityHigh | infrastructure/clients/osv_client.py:244-246 | a vector containing "AC:H" earns the C:H point, because the test is a substring test |
| OsvClient.PickBestIndex | infrastructure/clients/osv_client.py:168-182 | the representative has the best class (CVE, then GHSA, then other) and every earlier record has a worse class; an empty group has none |
| OsvClient.PickBestIsDetermined | infrastructure/clients/osv_client.py:168-182 | that characterisation singles out one position |
| OsvClient.PickBest | infrastructure/clients/osv_client.py:168-182 | the representative is the first CVE of the group, else its first GHSA, else its first record, and there is none exactly for an empty group |
| OsvClient.ReportedId | infrastructure/clients/osv_client.py:196-201 | when some alias starts with "CVE-", the reported id is the first such alias, with no CVE alias before it; otherwise it is the record's id, or "UNKNOWN" when the record has none |
| OsvClient.V3Entry | infrastructure/clients/osv_client.py:207-210 | the chosen entry is the first whose upper-cased type mentions CVSS_V3, and there is none exactly when no entry does |
| OsvClient.ScoreFromSeverity | infrastructure/clients/osv_client.py:204-215 | only the first entry whose upper-cased type mentions CVSS_V3 counts: the vector is its score exactly when that starts with "CVSS:", and the score is then the vector's heuristic score; otherwise vector "" and score 0 |
| OsvClient.DbSeverityScore | infrastructure/clients/osv_client.py:217-222 | the fallback table gives CRITICAL 9.5, HIGH 7.5, MODERATE and MEDIUM 5.0, LOW 2.5, and nothing for any other label |
| OsvClient.Description | infrastructure/clients/osv_client.py:224-234 | the description is the summary, else the details, else the placeholder, at most 500 characters |
| OsvClient.ConvertOsv | infrastructure/clients/osv_client.py:195-236 | the id is the first CVE alias, else the record id; the vector comes from the severity list; a non-zero vector score is kept, and a zero one is replaced by the upper-cased database label's score (0 when it has none); severity is score/10; the description is summary, details or the placeholder; every other metric is 0 |
| OsvClient.MemberMatch | infrastructure/clients/osv_client.py:131-136 | a "no match" answer means every member has a different id and does not list the given one as an alias; with every member carrying an id the scan never fails |
| OsvClient.ScanById | infrastructure/clients/osv_client.py:129-136 | the id scan keeps the incoming key when no group holds the id; a new key belongs to a group holding it; corrected and from no key, it finds nothing exactly when every group misses, and otherwise the first group that holds the id |
| OsvClient.ScanByAlias | infrastructure/clients/osv_client.py:138-148 | the found key is that of the first group whose ids and aliases contain the id or meet the record's aliases, with every earlier group missing; "none found" exactly when every group misses; a KeyError only at a group with an id-less member after groups that all missed |
| OsvClient.AppendTo | infrastructure/clients/osv_client.py:150-151 | appending keeps the keys and their order, keeps every group's members as a prefix, and adds no record but the new one |
| OsvClient.Put | infrastructure/clients/osv_client.py:152-153 | putting adds at most one group; under a fresh key the new singleton group goes at the end |
| OsvClient.GroupStep | infrastructure/clients/osv_client.py:123-156 | one loop iteration: the record joins the group under the found key, or else puts a group under its own id; its id and aliases become seen; groups stay non-empty |
| OsvClient.GroupFrom | infrastructure/clients/osv_client.py:123-156 | each remaining record opens at most one group, and no group is left empty |
| OsvClient.GroupRecords | infrastructure/clients/osv_client.py:120-156 | grouping yields at most as many groups as records, none of them empty |
| OsvClient.ConvertGroups | infrastructure/clients/osv_client.py:158-166 | the i-th vulnerability is the converted representative of the i-th group when no group is empty: one per group, in group order, attributed to the component |
| OsvClient.Dedup | infrastructure/clients/osv_client.py:118-166 | deduplication fails exactly when grouping raises a KeyError; otherwise it yields, in group order, the converted representative of each group, no more than there were records, all attributed to the component |
| OsvClient.GroupingCorrected | infrastructure/clients/osv_client.py:123-166 | with the corrected found-group test, grouping records that carry ids never fails, keeps every record exactly once, and yields one vulnerability per group |
| OsvClient.EmptyKeyedGroupIsMissed | infrastructure/clients/osv_client.py:139-153 | as written, a group keyed "" is found but treated as not found, and one CVE is reported twice |
| OsvClient.EmptyKeyedGroupIsFound | infrastructure/clients/osv_client.py:139-153 | with `is not None`, the same two records form one group and the CVE is reported once |
| OsvClient.ConstructPurl | infrastructure/clients/osv_client.py:184-193 | a "pkg:" bom-ref is used as is; otherwise a "pkg:<ecosystem>/<name>@<version>" PURL is guessed; there is none exactly when no ecosystem hint applies |
| OsvClient.BuildQueries | infrastructure/clients/osv_client.py:52-60 | one query per component with a usable PURL, in component order: the query of the j-th component sits after the queries of the usable components before it and carries that component and its PURL; every query is of that form and every usable component has one |
| OsvClient.Hydrate | infrastructure/clients/osv_client.py:94-104 | a record without aliases is replaced by its full record when one is fetched, and is kept otherwise; a record with aliases is kept |
| OsvClient.DeduperAboutItsComponent | infrastructure/clients/osv_client.py:106-110 | what deduplication stores for a component is attributed to that component |
| OsvClient.StoreFrom | infrastructure/clients/osv_client.py:85-110 | from a given answer on, every new entry is the hydrated, deduplicated answer to a query with that bom-ref, and when none raises every answer with a vulnerability gets an entry |
| OsvClient.StoreResults | infrastructure/clients/osv_client.py:85-114 | every new entry is the hydrated and deduplicated answer to a query whose component has that bom-ref; when no answer raises in grouping, every answer that deduplicates to something has an entry; entries stay attributed |
| OsvClient.LookupFrom | infrastructure/clients/osv_client.py:65-114 | over the remaining chunks, every new entry is the deduplicated answer of some answered request to a query with that bom-ref; when every request is answered and none raises, every answer with a vulnerability has an entry |
| OsvClient.AnsweredQuery | infrastructure/clients/osv_client.py:85-88 | an answer stored under a key was matched to a query of the list whose component has that bom-ref |
| OsvClient.BatchLookupByPurl | infrastructure/clients/osv_client.py:44-116 | every key is the bom-ref of a component with a usable PURL and holds the hydrated, deduplicated answer (grouped as written or corrected, by mode) to one of its queries; when every request is answered and no grouping raises, every answer with a vulnerability has an entry |
| RegistryClient.SplitType | infrastructure/clients/registry_client.py:77-79 | the split at the first '/' gives back the body, and fails exactly when there is no '/' |
| RegistryClient.SplitVersion | infrastructure/clients/registry_client.py:93-98 | the split at the last '@' gives back the rest, and fails exactly when there is no '@' |
| RegistryClient.ParsePurl | infrastructure/clients/registry_client.py:68-103 | a non-"pkg:" string does not parse; a parsed system is one of the six known and the version has no '@' |
| RegistryClient.ParsePurlSound | infrastructure/clients/registry_client.py:68-103 | whatever parses prints back as the same string |
| RegistryClient.ParsePurlRoundTrip | infrastructure/clients/registry_client.py:68-103 | every PURL of a known system whose version has no '@' parses back into its parts |
| RegistryClient.ConstructedPurlParses | infrastructure/clients/registry_client.py:75-100 | the PURLs the OSV client guesses parse into ecosystem, name and version |
| RegistryClient.MetadataQuery | infrastructure/clients/registry_client.py:25-31 | a request is made exactly when the PURL is truthy and parses into three non-empty parts |
| RegistryClient.ReadVersionInfo | infrastructure/clients/registry_client.py:44-61 | the deprecation flag is copied; a truthy timestamp is parsed, an absent one gives no date |
| RegistryClient.GetMetadata | infrastructure/clients/registry_client.py:19-66 | every key is the bom-ref of an answered component, and each answered component that no later namesake overrides has its answer stored under its bom-ref |
| RegistryClient.LastAnsweredOnlyReadsRequests | infrastructure/clients/registry_client.py:25-31 | which components are answered, and last answered, depends only on their bom-refs and PURLs |
| Ingestion.BomRefOf | application/service/ingestion_service.py:26-29 | the reference is the first truthy one of bom-ref, purl and name, and none when all are falsy |
| Ingestion.EmbeddedVulnerability | application/service/ingestion_service.py:40-53 | an embedded vulnerability takes score and vector from the first rating (0 and "" otherwise) and severity score/10 |
| Ingestion.ParseComponent | application/service/ingestion_service.py:25-57 | an entry without a reference is skipped; otherwise the PURL is kept, name and version default to "Unknown" when absent, and each embedded vulnerability becomes one it owns, with no scope and risk 0 |
| Ingestion.ParseComponents | application/service/ingestion_service.py:25-57 | the components follow the document order: the entry at position j, when it has a reference, becomes the component at the number of earlier entries with a reference; entries without one are skipped |
| Ingestion.ParseComponentsAppend | application/service/ingestion_service.py:25-57 | parsing a document split in two parses each part and concatenates the results in order |
| Ingestion.ParseComponentsSingle | application/service/ingestion_service.py:25-57 | a single entry parses to its component, or to nothing without a reference |
| Ingestion.MergeFound | application/service/ingestion_service.py:67-75 | the existing list stays in front, and only findings whose id was not already present are appended |
| Ingestion.MergeAddsOnlyNewIds | application/service/ingestion_service.py:70-75 | merging never adds a vulnerability whose id the component already had |
| Ingestion.MergeResults | application/service/ingestion_service.py:64-75 | merging keeps the components, leaves those without a result unchanged, and merges the found findings into the others |
| Ingestion.MergeKeepsOwnership | application/service/ingestion_service.py:64-75 | when results are attributed to their key, merged components still own all their vulnerabilities |
| Ingestion.LegacyRefresh | application/service/ingestion_service.py:83-89 | on the legacy path only a CVE with score 0 takes score and vector from an answer; nothing else changes |
| Ingestion.LegacyRefreshAll | application/service/ingestion_service.py:83-89 | on the legacy path every vulnerability of every component is refreshed in place, in order, and nothing else changes |
| Ingestion.Scan | application/service/ingestion_service.py:62-89 | scanning changes only vulnerability lists: with the PURL batch lookup each list is merged with what the batch lookup (in the given mode) found for its bom-ref; on the legacy path each vulnerability is refreshed in place |
| Ingestion.AgeRisk | application/service/ingestion_service.py:106-109 | the age adds 0.3 past three years, 0.1 past two, and nothing otherwise or without a date |
| Ingestion.MaintenanceRisk | application/service/ingestion_service.py:102-110 | the risk is exactly 0.7 when deprecated plus the age term (0.3 past three years, 0.1 past two), so it lies in [0,1] and the cap never binds |
| Ingestion.MaintenanceRiskMonotoneInAge | application/service/ingestion_service.py:106-110 | an older release never lowers the maintenance risk |
| Ingestion.ApplyMetadata | application/service/ingestion_service.py:96-110 | a component with an entry takes its date, flag and the maintenance risk computed from them, and nothing else changes; without an entry it is unchanged |
| Ingestion.MissingComponentsAsWritten | application/service/ingestion_service.py:19-20 | as written, the sentence is passed as `missing_field` |
| Ingestion.MissingComponents | application/service/ingestion_service.py:19-20 | passed as the reason, the message reads "SBOM validation failed: SBOM must contain components" |
| Ingestion.MissingComponentsMessages | application/service/ingestion_service.py:19-20 | the as-written message claims a field called "SBOM must contain components" is missing |
| Ingestion.AttachMetadata | application/service/ingestion_service.py:93-110 | each component carries the metadata of the last answered component with its bom-ref, with the risk computed from it; one none of whose namesakes is answered is unchanged; no other field changes |
| Ingestion.ParseSbom | application/service/ingestion_service.py:14-112 | a document without components is rejected with the program's error as written (or the corrected one, by mode); otherwise the i-th component is the i-th parsed entry with the scan's vulnerabilities and the metadata of its last answered namesake, and the dependency list (empty when absent) is returned |
| Ingestion.MetadataOfParsed | application/service/ingestion_service.py:93-110 | because the scan changes only vulnerabilities, the metadata attached after it is that of the last answered namesake among the parsed components |
| Ingestion.IngestedThroughout | application/service/ingestion_service.py:22-112 | the per-component guarantees survive the scan and the metadata step |
| Prioritization.Enrich | application/service/prioritization_service.py:35-40 | enrichment sets TCS, VEI, EPSS, KEV and their fusion from the component and the feeds, and nothing else |
| Prioritization.Placeholder | application/service/prioritization_service.py:42-54 | a component without vulnerabilities gets one finding, DEPRECATED exactly when deprecated and HEALTHY otherwise, attributed to it, with its description and every metric 0 |
| Prioritization.StatusLowered | application/service/prioritization_service.py:43-47 | the placeholder's description is "Component is deprecated" or "Component is healthy" |
| Prioritization.CollectVulns | application/service/prioritization_service.py:31-54 | every component contributes at least one finding, so the collection is empty exactly without components |
| Prioritization.Contribution | application/service/prioritization_service.py:33-54 | a component without vulnerabilities contributes exactly its placeholder; otherwise its i-th vulnerability, enriched with the component's TCS and the threat intelligence, is its i-th contribution |
| Prioritization.CollectVulnsAppend | application/service/prioritization_service.py:32-54 | collecting over two lists of components collects over each and concatenates the results in order |
| Prioritization.CollectVulnsSingle | application/service/prioritization_service.py:33-54 | one component alone contributes exactly its own findings, so with CollectVulnsAppend the collection is the components' contributions in component order |
| Prioritization.ClippedScore | application/service/prioritization_service.py:86-90 | the stored score is the HDFM score clipped to at most 1.0 |
| Prioritization.ScoreAll | application/service/prioritization_service.py:85-90 | scoring sets every clipped score and changes nothing else |
| Prioritization.PlaceholderScoresZero | application/service/prioritization_service.py:44-52 | a placeholder scores 0 whatever the weights |
| Prioritization.WinnersUpToTable | application/service/prioritization_service.py:93-102 | after every prefix, the table holds one slot per name seen, each the first top-scoring finding of that name |
| Prioritization.WinnerUnique | application/service/prioritization_service.py:93-102 | a component name has only one winner |
| Prioritization.KeepBest | application/service/prioritization_service.py:92-105 | the kept list has one finding per component name, none beaten by a finding of its name, and covers every name |
| Prioritization.SortByScore | application/service/prioritization_service.py:107-109 | the sort orders by descending score, permutes its input, and is stable |
| Prioritization.InsertStable | application/service/prioritization_service.py:109 | insertion keeps the order among equal scores and puts the new finding last among them |
| Prioritization.Thresholds | application/service/prioritization_service.py:112-127 | the thresholds are 9.0/7.0 when no score is positive, and otherwise at least the floors 7.0/4.0 |
| Prioritization.ThresholdsCollapseToFloors | application/service/prioritization_service.py:112-127 | with scores clipped to 1.0 and some positive, the thresholds are exactly 7.0 and 4.0 |
| Prioritization.Bucket | application/service/prioritization_service.py:130-140 | a non-positive score is LOW; then CRITICAL at the critical threshold, HIGH at the high one, else MEDIUM |
| Prioritization.BucketMonotone | application/service/prioritization_service.py:130-140 | a higher score never gets a lower priority |
| Prioritization.AssignAll | application/service/prioritization_service.py:129-140 | every finding gets its priority from its score and nothing else changes |
| Prioritization.CountCritical | application/service/prioritization_service.py:147 | the count is the number of CRITICAL priorities in the list |
| Prioritization.HubCountBounded | application/service/prioritization_service.py:148 | the number of hubs is at most the number of scored references |
| Prioritization.PrioritiesAreBands | application/service/prioritization_service.py:112-140 | with clipped scores the priority is a fixed band of the score: CRITICAL from 0.7, HIGH from 0.4, MEDIUM above 0 |
| Prioritization.RankedAreWinners | application/service/prioritization_service.py:92-140 | keeping the winners, reordering them and banding each gives exactly the banded winners, in both directions |
| Prioritization.RankFindings | application/service/prioritization_service.py:72-140 | the weights are the entropy weights of the findings' metric rows; every ranked finding is, with its banded priority, the winner of its component name among the scored findings, and every winner appears; the list is sorted descending with one finding per name, and findings of equal score keep the order in which they were kept |
| Prioritization.RankedKeepTieOrder | application/service/prioritization_service.py:105-140 | a stable reordering of the kept findings, banded one by one, lists the findings of each score in the order they were kept |
| Prioritization.WithScoreBanded | application/service/prioritization_service.py:130-140 | banding every finding and then picking those of one score gives the same as picking first and banding after |
| Prioritization.Analyze | application/service/prioritization_service.py:25-158 | it fails exactly when the depth computation fails; otherwise the weights are the entropy weights of the collected findings' rows, and the findings are exactly the banded winners of the scored findings, sorted descending, one per name, ties in the order they were kept; the totals, critical count, hub count and depth are consistent with them |
| ScenarioA.Purl | generator/scenarioA.py:26-32 | a generated PURL is PyPI when a group is given and npm otherwise |
| ScenarioA.CreateComponent | generator/scenarioA.py:26-40 | bom-ref and PURL are the same generated string; no scope, no vulnerabilities |
| ScenarioA.GeneratedPurlParses | generator/scenarioA.py:26-32 | every generated PURL parses back into ecosystem, name and version |
| ScenarioA.GeneratedComponentIngests | generator/scenarioA.py:34-40 | ingestion keeps a generated component's PURL as its reference, with its name and version |
| ScenarioA.GenerateWith | generator/scenarioA.py:42-97 | the components are the chain top, mid, deep, then one created component per library in list order, all generated; the root depends on the chain's head and then every library, the chain links in order, and each later entry is a childless entry keyed by its library's bom-ref |
| ScenarioA.ScenarioShape | generator/scenarioA.py:42-97 | there are 13 components and 14 dependency entries, the root has 11 children, and ingestion keeps all components |
| ScenarioB.Purl | generator/scenarioB.py:26-33 | a PURL is Maven under the group when one is given and PyPI otherwise |
| ScenarioB.CreateComponent | generator/scenarioB.py:26-42 | bom-ref and PURL are the same string, and the scope is recorded |
| ScenarioB.PypiPurlParses | generator/scenarioB.py:31-33 | PyPI PURLs parse back into their parts |
| ScenarioB.MavenPurlParses | generator/scenarioB.py:27-29 | Maven PURLs parse with "group/name" as the name, not the component's "group.name" |
| ScenarioB.GenerateWith | generator/scenarioB.py:44-97 | the document holds mocha, vm2, requests, then the stack in order; the root depends on mocha, requests and every stack library; mocha depends on vm2; vm2, requests and every stack library have no children |
| ScenarioB.ScenarioShape | generator/scenarioB.py:44-97 | there are 7 components and 8 dependency entries, and the root has 6 children |
| ScenarioB.ExcludedScopeIsLost | generator/scenarioB.py:53-70 | the "excluded" scope does not survive ingestion, so vm2 and requests get the same scope priority |

## Left out

- Network, logging, `print`, persistence (`save_analysis`) and the OSV by-id cache are left out. Endpoints are function parameters. A failed request, a non-200 answer and a raised exception are all `None`.
- `quote_plus` on the deps.dev URL is not modelled; the request function receives the parsed parts.
- `datetime.now`, `fromisoformat` and the day arithmetic are not modelled. The timestamp parser is a parameter, and the age in years comes with the parsed date.
- Floating point is modelled as exact reals: no NaN, infinity or rounding. `np.log`, `np.median` and `np.percentile` are parameters bounded by `Numerics.Lawful` only.
- `Entities.ParseFloat` accepts the decimal and exponent forms. It does not accept `inf`, `nan`, or underscores between digits, all of which Python's `float()` accepts.
- Case conversion covers ASCII letters only.
- JSON values of unexpected types are not modelled: a `null` where a list or string is expected, a string rating score, or an empty dict as a falsy record. Keys are present or absent.
- The legacy `batch_lookup` / `_extract_vulnerability_data` path of the OSV client is not modelled: `parse_sbom` never calls it.
- ScenarioA.GenerateWith: lists one dependency entry per component in insertion order, and does not model the generator's `deps_map` dictionary merging two entries whose bom-refs coincide; the fixed stacks never repeat a name.
- ScenarioB.GenerateWith: the same, for its `deps_map`.
- HdfmModel.CalculateEpssMedian: states only that the baseline lies between the extreme EPSS values, because the median is a parameter bounded by those values alone.
- Prioritization.Thresholds: states only the floors, because the percentiles are parameters bounded by the extreme scores alone.
- HdfmModel.CalculateEntropyWeights: the logarithm is a parameter, so entropy is stated through the raw weights, not as a number in [0,1].
- Prioritization.Analyze: the only pipeline error modelled is the one the graph library raises for a dependency entry without a `ref`. Errors inside the feed clients are their own parameters' concern.
- The sort is modelled as an insertion sort with the same result as Python's stable `list.sort`. Performance is not modelled.

## Findings

| source | as written | input that shows it | evidently intended | confidence | as-written member | corrected member |
|---|---|---|---|---|---|---|
| infrastructure/clients/osv_client.py:136-150 | a found group is tested by truthiness (`if found_group`, `if not found_group`), so a group keyed by the empty id "" counts as not found | a record with empty id and alias CVE-2021-1, then a GHSA record with the same alias: the second opens its own group and the CVE is reported twice | `found_group is not None` | not executed | OsvClient.EmptyKeyedGroupIsMissed | OsvClient.EmptyKeyedGroupIsFound |
| application/service/ingestion_service.py:20 | the sentence "SBOM must contain components" is passed positionally as `missing_field` | an SBOM without components: the message is "SBOM validation failed: Missing required field 'SBOM must contain components'" | pass the sentence as `reason` | not executed | Ingestion.MissingComponentsAsWritten | Ingestion.MissingComponents |
