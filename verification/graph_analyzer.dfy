/**
 * Dependency-graph metrics: the Topological Criticality Score of each component, from its
 * in-degree and scope, and the maximum breadth-first depth below the graph's roots.
 */
module GraphAnalyzer {
  import opened Wrappers
  import opened Entities
  import opened Sbom

  // ----- in-degree -----

  /** How many times `t` occurs in `xs`. */
  function Occurrences(xs: seq<string>, t: string): (n: nat)
    ensures n == multiset(xs)[t]
    ensures n > 0 <==> t in xs
  {
    if |xs| == 0 then 0
    else
      assert xs == [xs[0]] + xs[1..];
      (if xs[0] == t then 1 else 0) + Occurrences(xs[1..], t)
  }

  /** Every `dependsOn` target of every entry, in order, duplicates kept. */
  function Targets(deps: seq<Dependency>): seq<string> {
    if |deps| == 0 then [] else deps[0].dependsOn + Targets(deps[1..])
  }

  /** The number of times `t` is listed as a target, across all entries and duplicates included. */
  function InDegree(deps: seq<Dependency>, t: string): (n: nat)
    ensures n == multiset(Targets(deps))[t]
    ensures n > 0 <==> t in Targets(deps)
  {
    if |deps| == 0 then 0 else Occurrences(deps[0].dependsOn, t) + InDegree(deps[1..], t)
  }

  /** The largest in-degree among the targets `ts`, or 0 when there are none. */
  function MaxInDegreeOver(deps: seq<Dependency>, ts: seq<string>): (m: nat)
    ensures forall i :: 0 <= i < |ts| ==> InDegree(deps, ts[i]) <= m
    ensures |ts| > 0 ==> exists i :: 0 <= i < |ts| && InDegree(deps, ts[i]) == m
    ensures |ts| == 0 ==> m == 0
  {
    if |ts| == 0 then 0
    else
      var rest := MaxInDegreeOver(deps, ts[1..]);
      assert forall i :: 1 <= i < |ts| ==> ts[i] == ts[1..][i - 1];
      if InDegree(deps, ts[0]) >= rest then InDegree(deps, ts[0]) else rest
  }

  /**
   * The normaliser for in-degrees: the largest in-degree of any target, or 1 when nothing is a
   * target, so that dividing by it is always defined.
   */
  function MaxInDegree(deps: seq<Dependency>): (m: nat)
    ensures m >= 1
    ensures forall t :: InDegree(deps, t) <= m
    ensures |Targets(deps)| == 0 ==> m == 1
    ensures |Targets(deps)| > 0 ==> exists t :: t in Targets(deps) && InDegree(deps, t) == m
  {
    var ts := Targets(deps);
    if |ts| == 0 then 1
    else
      var m := MaxInDegreeOver(deps, ts);
      assert forall t :: InDegree(deps, t) <= m by {
        forall t ensures InDegree(deps, t) <= m {
          if t in ts {
            var i :| 0 <= i < |ts| && ts[i] == t;
          }
        }
      }
      var i :| 0 <= i < |ts| && InDegree(deps, ts[i]) == m;
      assert InDegree(deps, ts[i]) > 0;
      m
  }

  // ----- topological criticality -----

  /** Scope priority: 'required' 1.0, 'optional' 0.5, any other value or none 0.6. */
  function ScopePriority(scope: Option<string>): (p: real)
    ensures scope == Some("required") ==> p == 1.0
    ensures scope == Some("optional") ==> p == 0.5
    ensures scope != Some("required") && scope != Some("optional") ==> p == 0.6
    ensures 0.5 <= p <= 1.0
  {
    if scope == Some("required") then 1.0
    else if scope == Some("optional") then 0.5
    else 0.6
  }

  /**
   * A component's TCS: the average of its in-degree normalised by the largest in-degree and of
   * its scope priority. It lies in [0.25, 1.0], and a component nothing depends on scores half
   * its scope priority.
   */
  function ComponentTcs(c: Component, deps: seq<Dependency>): (r: real)
    ensures 0.25 <= r <= 1.0
    ensures InDegree(deps, c.bomRef) == 0 ==> r == ScopePriority(c.scope) / 2.0
    ensures r == (InDegree(deps, c.bomRef) as real / MaxInDegree(deps) as real + ScopePriority(c.scope)) / 2.0
  {
    var q := Normalised(InDegree(deps, c.bomRef), MaxInDegree(deps));
    (q + ScopePriority(c.scope)) / 2.0
  }

  /** An in-degree over the largest in-degree: a fraction in [0, 1], zero only for zero. */
  function Normalised(deg: nat, maxDeg: nat): (q: real)
    requires deg <= maxDeg && maxDeg >= 1
    ensures 0.0 <= q <= 1.0
    ensures q == 0.0 <==> deg == 0
    ensures q == deg as real / maxDeg as real
  {
    assert (deg as real / maxDeg as real) * maxDeg as real == deg as real;
    deg as real / maxDeg as real
  }

  /** Set of the components' `bom_ref`s. */
  function BomRefs(cs: seq<Component>): (refs: set<string>)
    ensures forall i :: 0 <= i < |cs| ==> cs[i].bomRef in refs
  {
    if |cs| == 0 then {}
    else
      var init := cs[..|cs| - 1];
      assert forall i :: 0 <= i < |init| ==> init[i] == cs[i];
      BomRefs(init) + {cs[|cs| - 1].bomRef}
  }

  /**
   * `f` of every component, keyed by `bom_ref`: one key per distinct reference, holding `f` of
   * the last component with that reference.
   */
  function KeyedByRef(cs: seq<Component>, f: Component -> real): (m: map<string, real>)
    ensures m.Keys == BomRefs(cs)
    ensures forall i :: 0 <= i < |cs| && (forall j :: i < j < |cs| ==> cs[j].bomRef != cs[i].bomRef) ==>
      m[cs[i].bomRef] == f(cs[i])
  {
    if |cs| == 0 then map[]
    else
      var prev := KeyedByRef(cs[..|cs| - 1], f);
      LastWinsStep(cs, f, prev);
      prev[cs[|cs| - 1].bomRef := f(cs[|cs| - 1])]
  }

  lemma LastWinsStep(cs: seq<Component>, f: Component -> real, prev: map<string, real>)
    requires |cs| > 0
    requires forall i :: 0 <= i < |cs| - 1 && (forall j :: i < j < |cs| - 1 ==> cs[j].bomRef != cs[i].bomRef) ==>
      cs[i].bomRef in prev && prev[cs[i].bomRef] == f(cs[i])
    ensures var m := prev[cs[|cs| - 1].bomRef := f(cs[|cs| - 1])];
      forall i :: 0 <= i < |cs| && (forall j :: i < j < |cs| ==> cs[j].bomRef != cs[i].bomRef) ==>
        m[cs[i].bomRef] == f(cs[i])
  {
    var last := cs[|cs| - 1];
    var m := prev[last.bomRef := f(last)];
    forall i | 0 <= i < |cs| && (forall j :: i < j < |cs| ==> cs[j].bomRef != cs[i].bomRef)
      ensures m[cs[i].bomRef] == f(cs[i])
    {
      if i < |cs| - 1 {
        assert cs[i].bomRef != last.bomRef;
        assert forall j :: i < j < |cs| - 1 ==> cs[j].bomRef != cs[i].bomRef;
      }
    }
  }

  /**
   * The TCS of every component, keyed by `bom_ref`: one key per distinct reference, holding
   * the score of the last component with that reference, every score in [0.25, 1.0].
   */
  function CalculateTcs(cs: seq<Component>, deps: seq<Dependency>): (m: map<string, real>)
    ensures m.Keys == BomRefs(cs)
    ensures forall i :: 0 <= i < |cs| && (forall j :: i < j < |cs| ==> cs[j].bomRef != cs[i].bomRef) ==>
      m[cs[i].bomRef] == ComponentTcs(cs[i], deps)
    ensures forall k :: k in m ==> 0.25 <= m[k] <= 1.0
  {
    var f := (c: Component) => ComponentTcs(c, deps);
    var m := KeyedByRef(cs, f);
    KeyedByRefRange(cs, f, 0.25, 1.0);
    m
  }

  /** When `f` stays within [lo, hi] on the components, so does every value of the keyed map. */
  lemma {:induction false} KeyedByRefRange(cs: seq<Component>, f: Component -> real, lo: real, hi: real)
    requires forall c :: lo <= f(c) <= hi
    ensures forall k :: k in KeyedByRef(cs, f) ==> lo <= KeyedByRef(cs, f)[k] <= hi
  {
    if |cs| > 0 {
      KeyedByRefRange(cs[..|cs| - 1], f, lo, hi);
    }
  }

  /** Without a scope, as for every ingested component, a TCS is (normalised in-degree + 0.6) / 2. */
  lemma UnscopedTcs(c: Component, deps: seq<Dependency>)
    requires c.scope.None?
    ensures ComponentTcs(c, deps) == (InDegree(deps, c.bomRef) as real / MaxInDegree(deps) as real + 0.6) / 2.0
  {
  }

  // ----- breadth-first depth -----

  type Edge = (string, string)

  /** The edges an entry contributes: its reference to each of its targets. */
  function EntryEdges(ref: string, targets: seq<string>): (es: seq<Edge>)
    ensures |es| == |targets| && forall i :: 0 <= i < |es| ==> es[i] == (ref, targets[i])
  {
    if |targets| == 0 then [] else [(ref, targets[0])] + EntryEdges(ref, targets[1..])
  }

  /**
   * The graph's edges, entry by entry. `None` when an entry without a `ref` lists targets: the
   * graph library refuses `None` as a node, and the error surfaces to the caller.
   */
  function EdgesOf(deps: seq<Dependency>): (r: Option<seq<Edge>>)
    ensures r.None? <==> exists i :: 0 <= i < |deps| && deps[i].ref.None? && |deps[i].dependsOn| > 0
    ensures r.Some? ==> |r.value| == |Targets(deps)|
  {
    if |deps| == 0 then Some([])
    else
      var d := deps[0];
      assert forall i :: 1 <= i < |deps| ==> deps[i] == deps[1..][i - 1];
      if d.ref.None? && |d.dependsOn| > 0 then None
      else
        match EdgesOf(deps[1..])
        case None => None
        case Some(rest) =>
          if d.ref.None? then Some(rest) else Some(EntryEdges(d.ref.value, d.dependsOn) + rest)
  }

  function Sources(E: seq<Edge>): set<string> {
    set e | e in E :: e.0
  }

  function TargetSet(E: seq<Edge>): set<string> {
    set e | e in E :: e.1
  }

  /** The graph's nodes: every endpoint of an edge. */
  function NodesOf(E: seq<Edge>): set<string> {
    Sources(E) + TargetSet(E)
  }

  /** The successors of the nodes in `S`. */
  function Post(E: seq<Edge>, S: set<string>): set<string> {
    set e | e in E && e.0 in S :: e.1
  }

  lemma PostUnion(E: seq<Edge>, A: set<string>, B: set<string>)
    ensures Post(E, A + B) == Post(E, A) + Post(E, B)
  {
  }

  lemma PostMonotone(E: seq<Edge>, A: set<string>, B: set<string>)
    requires A <= B
    ensures Post(E, A) <= Post(E, B)
  {
  }

  /** The nodes within `k` edges of `r`. */
  function Ball(E: seq<Edge>, r: string, k: nat): set<string>
    decreases k
  {
    if k == 0 then {r} else Ball(E, r, k - 1) + Post(E, Ball(E, r, k - 1))
  }

  lemma {:induction false} BallWithin(E: seq<Edge>, r: string, k: nat)
    ensures Ball(E, r, k) <= {r} + NodesOf(E)
  {
    if k > 0 {
      BallWithin(E, r, k - 1);
    }
  }

  lemma {:induction false} BallGrows(E: seq<Edge>, r: string, j: nat, k: nat)
    requires j <= k
    ensures Ball(E, r, j) <= Ball(E, r, k)
    decreases k - j
  {
    if j < k {
      BallGrows(E, r, j, k - 1);
    }
  }

  lemma SubsetCardinality(A: set<string>, B: set<string>)
    requires A <= B
    ensures |A| <= |B| && (A != B ==> |A| < |B|)
  {
    assert B == A + (B - A);
    if A != B {
      var x :| x in B && x !in A;
    }
  }

  /**
   * The first radius, from `k` on, at which the ball around `r` stops growing: every node
   * reachable from `r` lies within that many edges, and each smaller radius adds a node.
   */
  function Eccentricity(E: seq<Edge>, r: string, k: nat): (d: nat)
    ensures d >= k
    ensures Ball(E, r, d + 1) == Ball(E, r, d)
    decreases |{r} + NodesOf(E)| - |Ball(E, r, k)|
  {
    if Ball(E, r, k + 1) == Ball(E, r, k) then k
    else
      GrowthShrinksMeasure(E, r, k);
      Eccentricity(E, r, k + 1)
  }

  /** The ball around `r` gains a node from radius `j` to radius `j + 1`. */
  predicate Grows(E: seq<Edge>, r: string, j: nat) {
    Ball(E, r, j) != Ball(E, r, j + 1)
  }

  /** Growth at every radius below `d` and at `d` is growth at every radius up to `d`. */
  lemma GrowsOneMore(E: seq<Edge>, r: string, d: nat)
    requires forall j :: 0 <= j < d ==> Grows(E, r, j)
    requires Ball(E, r, d) != Ball(E, r, d + 1)
    ensures forall j :: 0 <= j < d + 1 ==> Grows(E, r, j)
  {
    assert Grows(E, r, d);
  }

  /** Growth at radius `k` and at every radius from `k + 1` below `d` is growth from `k` below `d`. */
  lemma GrowsFrom(E: seq<Edge>, r: string, k: nat, d: nat)
    requires Ball(E, r, k) != Ball(E, r, k + 1)
    requires forall j :: k + 1 <= j < d ==> Grows(E, r, j)
    ensures forall j :: k <= j < d ==> Grows(E, r, j)
  {
    assert Grows(E, r, k);
  }

  /** Before the radius where it stops, the ball grows at every step. */
  lemma {:induction false} EccentricityGrows(E: seq<Edge>, r: string, k: nat)
    ensures forall j :: k <= j < Eccentricity(E, r, k) ==> Grows(E, r, j)
    decreases |{r} + NodesOf(E)| - |Ball(E, r, k)|
  {
    if Ball(E, r, k + 1) == Ball(E, r, k) {
      assert Eccentricity(E, r, k) == k;
    } else {
      GrowthShrinksMeasure(E, r, k);
      EccentricityGrows(E, r, k + 1);
      assert Eccentricity(E, r, k) == Eccentricity(E, r, k + 1);
      GrowsFrom(E, r, k, Eccentricity(E, r, k + 1));
    }
  }

  /** A ball that still grows leaves fewer unvisited nodes, and never more than the graph has. */
  lemma GrowthShrinksMeasure(E: seq<Edge>, r: string, k: nat)
    requires Ball(E, r, k + 1) != Ball(E, r, k)
    ensures |Ball(E, r, k)| < |Ball(E, r, k + 1)| <= |{r} + NodesOf(E)|
  {
    BallWithin(E, r, k + 1);
    BallGrows(E, r, k, k + 1);
    SubsetCardinality(Ball(E, r, k), Ball(E, r, k + 1));
    SubsetCardinality(Ball(E, r, k + 1), {r} + NodesOf(E));
  }

  /** The largest breadth-first distance from `r` to a node it reaches. */
  function Ecc(E: seq<Edge>, r: string): nat {
    Eccentricity(E, r, 0)
  }

  /** A radius where the ball first stops growing is the eccentricity. */
  lemma EccUnique(E: seq<Edge>, r: string, d: nat)
    requires Ball(E, r, d + 1) == Ball(E, r, d)
    requires forall j :: 0 <= j < d ==> Grows(E, r, j)
    ensures Ecc(E, r) == d
  {
    var e := Ecc(E, r);
    EccentricityGrows(E, r, 0);
    assert !Grows(E, r, e);
    assert !Grows(E, r, d);
  }

  lemma {:induction false} BallSize(E: seq<Edge>, r: string, j: nat)
    requires j <= Ecc(E, r)
    ensures |Ball(E, r, j)| >= j + 1
  {
    if j > 0 {
      EccentricityGrows(E, r, 0);
      assert Grows(E, r, j - 1);
      BallSize(E, r, j - 1);
      BallGrows(E, r, j - 1, j);
      SubsetCardinality(Ball(E, r, j - 1), Ball(E, r, j));
    }
  }

  /** From a node of the graph, no breadth-first distance exceeds the node count minus one. */
  lemma EccBound(E: seq<Edge>, r: string)
    requires r in NodesOf(E)
    ensures Ecc(E, r) <= |NodesOf(E)| - 1
  {
    var d := Ecc(E, r);
    BallSize(E, r, d);
    BallWithin(E, r, d);
    assert {r} + NodesOf(E) == NodesOf(E);
    SubsetCardinality(Ball(E, r, d), NodesOf(E));
  }

  /**
   * Breadth-first search from `r`, level by level, stopping when a level adds no new node:
   * its depth is the eccentricity of `r`. Cycles end the search because visited nodes are
   * never revisited.
   */
  method BfsDepth(E: seq<Edge>, r: string) returns (depth: nat)
    ensures depth == Ecc(E, r)
  {
    var visited := {r};
    var frontier := {r};
    depth := 0;
    while true
      invariant BfsState(E, r, depth, visited, frontier)
      decreases |{r} + NodesOf(E)| - |visited|
    {
      var next := Post(E, frontier) - visited;
      if next == {} {
        BfsStop(E, r, depth, visited, frontier);
        return;
      }
      BfsAdvance(E, r, depth, visited, frontier);
      visited := visited + next;
      frontier := next;
      depth := depth + 1;
    }
  }

  /**
   * The search after `depth` levels: it has visited the ball of that radius, the frontier holds
   * the nodes whose successors may still be new, and the ball grew at every level so far.
   */
  predicate BfsState(E: seq<Edge>, r: string, depth: nat, visited: set<string>, frontier: set<string>) {
    && visited == Ball(E, r, depth)
    && frontier <= visited
    && Post(E, visited) <= visited + Post(E, frontier)
    && forall j :: 0 <= j < depth ==> Grows(E, r, j)
  }

  /** A level that adds nothing ends the search at the eccentricity. */
  lemma BfsStop(E: seq<Edge>, r: string, depth: nat, visited: set<string>, frontier: set<string>)
    requires BfsState(E, r, depth, visited, frontier)
    requires Post(E, frontier) - visited == {}
    ensures depth == Ecc(E, r)
  {
    BfsLevel(E, r, depth, visited, frontier);
    assert visited + (Post(E, frontier) - visited) == visited;
    EccUnique(E, r, depth);
  }

  /** A level that adds nodes moves the search one level on and leaves fewer unvisited nodes. */
  lemma BfsAdvance(E: seq<Edge>, r: string, depth: nat, visited: set<string>, frontier: set<string>)
    requires BfsState(E, r, depth, visited, frontier)
    requires Post(E, frontier) - visited != {}
    ensures BfsState(E, r, depth + 1, visited + (Post(E, frontier) - visited), Post(E, frontier) - visited)
    ensures |visited| < |visited + (Post(E, frontier) - visited)| <= |{r} + NodesOf(E)|
  {
    var next := Post(E, frontier) - visited;
    BfsLevel(E, r, depth, visited, frontier);
    BfsGrowth(E, r, depth, visited, next);
    GrowsOneMore(E, r, depth);
  }

  /** The next level of the search is the frontier's unvisited successors. */
  lemma BfsLevel(E: seq<Edge>, r: string, depth: nat, visited: set<string>, frontier: set<string>)
    requires visited == Ball(E, r, depth) && frontier <= visited
    requires Post(E, visited) <= visited + Post(E, frontier)
    ensures Ball(E, r, depth + 1) == visited + (Post(E, frontier) - visited)
    ensures Post(E, visited + (Post(E, frontier) - visited))
      <= visited + (Post(E, frontier) - visited) + Post(E, Post(E, frontier) - visited)
  {
    PostMonotone(E, frontier, visited);
    PostUnion(E, visited, Post(E, frontier) - visited);
  }

  /** A non-empty level grows the ball and leaves fewer unvisited nodes. */
  lemma BfsGrowth(E: seq<Edge>, r: string, depth: nat, visited: set<string>, next: set<string>)
    requires visited == Ball(E, r, depth) && Ball(E, r, depth + 1) == visited + next
    requires next != {} && next !! visited
    ensures Ball(E, r, depth) != Ball(E, r, depth + 1)
    ensures |visited| < |visited + next| <= |{r} + NodesOf(E)|
  {
    var x :| x in next;
    assert x in Ball(E, r, depth + 1) && x !in Ball(E, r, depth);
    BallWithin(E, r, depth + 1);
    SubsetCardinality(visited, visited + next);
    SubsetCardinality(visited + next, {r} + NodesOf(E));
  }

  /** The sources among `es` that are not in `targets`, in edge order (with repeats). */
  function SourcesOutside(es: seq<Edge>, targets: set<string>): (rs: seq<string>)
    ensures forall i :: 0 <= i < |rs| ==> rs[i] in Sources(es) && rs[i] !in targets
    ensures forall e :: e in es && e.0 !in targets ==> e.0 in rs
  {
    if |es| == 0 then []
    else
      var rest := SourcesOutside(es[1..], targets);
      assert forall e :: e in es[1..] ==> e in es;
      assert forall e :: e in es ==> e == es[0] || e in es[1..];
      if es[0].0 !in targets then [es[0].0] + rest else rest
  }

  /** The nodes no edge points to, in edge order (with repeats). */
  function Roots(E: seq<Edge>): (rs: seq<string>)
    ensures forall i :: 0 <= i < |rs| ==> rs[i] in NodesOf(E) && rs[i] !in TargetSet(E)
    ensures forall n :: n in NodesOf(E) && n !in TargetSet(E) ==> n in rs
  {
    var rs := SourcesOutside(E, TargetSet(E));
    assert forall n :: n in NodesOf(E) && n !in TargetSet(E) ==> n in rs by {
      forall n | n in NodesOf(E) && n !in TargetSet(E) ensures n in rs {
        var e :| e in E && e.0 == n;
      }
    }
    rs
  }

  /** The largest eccentricity among `rs`, or 0 when there are none. */
  function MaxEcc(E: seq<Edge>, rs: seq<string>): (d: nat)
    ensures forall i :: 0 <= i < |rs| ==> Ecc(E, rs[i]) <= d
    ensures |rs| > 0 ==> exists i :: 0 <= i < |rs| && Ecc(E, rs[i]) == d
    ensures |rs| == 0 ==> d == 0
  {
    if |rs| == 0 then 0
    else
      var prev := MaxEcc(E, rs[..|rs| - 1]);
      assert forall i :: 0 <= i < |rs| - 1 ==> rs[..|rs| - 1][i] == rs[i];
      var last := Ecc(E, rs[|rs| - 1]);
      if last > prev then last else prev
  }

  /**
   * The maximum depth of the dependency graph: `None` when an entry without a `ref` lists
   * targets; 0 when there are no edges or every node has an incoming edge; otherwise the
   * largest breadth-first distance from a node with in-degree 0, at most the node count minus one.
   */
  function MaxDepth(deps: seq<Dependency>): (r: Option<nat>)
    ensures r.None? <==> EdgesOf(deps).None?
    ensures r.Some? && |Targets(deps)| == 0 ==> r.value == 0
    ensures r.Some? && |Roots(EdgesOf(deps).value)| == 0 ==> r.value == 0
    ensures r.Some? && |Targets(deps)| > 0 ==> r.value <= |NodesOf(EdgesOf(deps).value)| - 1
    ensures r.Some? ==> forall n :: n in NodesOf(EdgesOf(deps).value) && n !in TargetSet(EdgesOf(deps).value) ==>
      Ecc(EdgesOf(deps).value, n) <= r.value
    ensures r.Some? && |Roots(EdgesOf(deps).value)| > 0 ==>
      exists n :: n in NodesOf(EdgesOf(deps).value) && n !in TargetSet(EdgesOf(deps).value) && Ecc(EdgesOf(deps).value, n) == r.value
  {
    match EdgesOf(deps)
    case None => None
    case Some(E) =>
      if |E| == 0 then Some(0)
      else
        MaxEccOfRoots(E);
        Some(MaxEcc(E, Roots(E)))
  }

  /** Over the roots of a non-empty graph, the largest eccentricity bounds every root's and is at most the node count minus one. */
  lemma MaxEccOfRoots(E: seq<Edge>)
    requires |E| > 0
    ensures forall n :: n in NodesOf(E) && n !in TargetSet(E) ==> Ecc(E, n) <= MaxEcc(E, Roots(E))
    ensures MaxEcc(E, Roots(E)) <= |NodesOf(E)| - 1
  {
    RootsBelowMax(E, Roots(E));
    MaxEccBound(E, Roots(E));
  }

  /** Every node without an incoming edge is among the roots, so the maximum bounds it. */
  lemma RootsBelowMax(E: seq<Edge>, rs: seq<string>)
    requires forall n :: n in NodesOf(E) && n !in TargetSet(E) ==> n in rs
    ensures forall n :: n in NodesOf(E) && n !in TargetSet(E) ==> Ecc(E, n) <= MaxEcc(E, rs)
  {
    forall n | n in NodesOf(E) && n !in TargetSet(E) ensures Ecc(E, n) <= MaxEcc(E, rs) {
      var i :| 0 <= i < |rs| && rs[i] == n;
    }
  }

  /** The maximum over nodes of a non-empty graph is at most the node count minus one. */
  lemma MaxEccBound(E: seq<Edge>, rs: seq<string>)
    requires |E| > 0
    requires forall i :: 0 <= i < |rs| ==> rs[i] in NodesOf(E)
    ensures MaxEcc(E, rs) <= |NodesOf(E)| - 1
  {
    if |rs| > 0 {
      var i :| 0 <= i < |rs| && Ecc(E, rs[i]) == MaxEcc(E, rs);
      EccBound(E, rs[i]);
    } else {
      assert E[0].0 in NodesOf(E);
    }
  }

  /** The maximum depth as the graph code computes it: one breadth-first search per root. */
  method CalculateMaxDepth(deps: seq<Dependency>) returns (r: Option<nat>)
    ensures r == MaxDepth(deps)
  {
    var edges := EdgesOf(deps);
    if edges.None? {
      return None;
    }
    var E := edges.value;
    if |E| == 0 {
      return Some(0);
    }
    var rs := Roots(E);
    var best := 0;
    var i := 0;
    while i < |rs|
      invariant 0 <= i <= |rs|
      invariant best == MaxEcc(E, rs[..i])
    {
      var d := BfsDepth(E, rs[i]);
      MaxEccSnoc(E, rs, i);
      best := if d > best then d else best;
      i := i + 1;
    }
    assert rs[..|rs|] == rs;
    assert MaxDepth(deps) == Some(MaxEcc(E, rs));
    return Some(best);
  }

  /** Taking one more root into the maximum. */
  lemma MaxEccSnoc(E: seq<Edge>, rs: seq<string>, i: nat)
    requires i < |rs|
    ensures MaxEcc(E, rs[..i + 1]) == if Ecc(E, rs[i]) > MaxEcc(E, rs[..i]) then Ecc(E, rs[i]) else MaxEcc(E, rs[..i])
  {
    assert rs[..i + 1][..i] == rs[..i];
  }
}
