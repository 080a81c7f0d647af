/** From the module dependency graph to the report: which components are cycles, which edges to cut
    in the largest one, and which modules to evict. What the report tells its reader to do is
    proved to have the effect it announces. */
module CycleReport {
  import opened Digraph
  import opened Components
  import opened Orders
  import opened Eades
  import opened Repair
  import Sorting
  import Tarjan

  // ----- cycles

  function Multi<T>(comps: seq<seq<T>>): seq<seq<T>> {
    if comps == [] then []
    else (if |comps[0]| > 1 then [comps[0]] else []) + Multi(comps[1..])
  }

  lemma {:induction false} MultiMembers<T(!new)>(comps: seq<seq<T>>, c: seq<T>)
    ensures c in Multi(comps) <==> c in comps && |c| > 1
  {
    if comps != [] {
      MultiMembers(comps[1..], c);
      assert comps == [comps[0]] + comps[1..];
    }
  }

  lemma CycleMeansMulti<T(!new)>(g: Graph<T>, comps: seq<seq<T>>, u: T)
    requires SccsOf(g, comps) && NoSelfEdges(g) && OnCycle(g, u)
    ensures Multi(comps) != []
  {
    hide ExactClasses, LeavesFirst, DisjointLists;
    var w :| Edge(g, u, w) && Reach(g, w, u);
    ReachEdge(g, u, w);
    var i := MembersAt(comps, u);
    ClassOf(g, comps, i, u, w);
    MultiMembers(comps, comps[i]);
  }

  lemma MultiMeansCycle<T(!new)>(g: Graph<T>, comps: seq<seq<T>>, c: seq<T>, u: T)
    requires SccsOf(g, comps) && c in Multi(comps) && u in c
    ensures OnCycle(g, u)
  {
    MultiMembers(comps, c);
    var i :| 0 <= i < |comps| && comps[i] == c;
    var v := if c[0] == u then c[1] else c[0];
    assert v in comps[i] && v != u;
    ClassOf(g, comps, i, u, v);
    var w := ReachFirst(g, u, v);
    ReachTrans(g, w, v, u);
  }

  /** With self-edges excluded, there is nothing to report exactly when the graph is acyclic. */
  lemma NoMultiIffAcyclic<T(!new)>(g: Graph<T>, comps: seq<seq<T>>)
    requires SccsOf(g, comps) && NoSelfEdges(g)
    ensures Multi(comps) == [] <==> Acyclic(g)
  {
    if Multi(comps) == [] {
      forall u ensures !OnCycle(g, u) {
        if OnCycle(g, u) {
          CycleMeansMulti(g, comps, u);
        }
      }
    } else {
      var c := Multi(comps)[0];
      MultiMembers(comps, c);
      MultiMeansCycle(g, comps, c, c[0]);
    }
  }

  // ----- the report after the repair

  lemma SameSize<T(!new)>(a: seq<T>, b: seq<T>)
    requires Distinct(a) && |a| > 1
    ensures Elems(a) == Elems(b) ==> |b| > 1
  {
    assert a[0] in Elems(a) && a[1] in Elems(a) && a[0] != a[1];
  }

  lemma ReportedBefore<T(!new)>(comps: seq<seq<T>>, big: seq<T>, again: seq<seq<T>>, c: seq<T>) returns (b: seq<T>)
    requires Dissolved(comps, big, again) && DisjointLists(again) && c in Multi(again)
    ensures b in Multi(comps) && b != big && Elems(b) == Elems(c)
  {
    MultiMembers(again, c);
    var i :| 0 <= i < |again| && again[i] == c;
    assert c[0] in again[i] && c[0] !in big;
    assert c[0] in Members(again);
    var j := MembersAt(comps, c[0]);
    b := comps[j];
    SameSize(c, b);
    MultiMembers(comps, b);
  }

  lemma ReportedAgain<T(!new)>(comps: seq<seq<T>>, big: seq<T>, again: seq<seq<T>>, b: seq<T>) returns (c: seq<T>)
    requires Dissolved(comps, big, again) && DisjointLists(comps) && b in Multi(comps) && big in comps && b != big
    ensures c in Multi(again) && Elems(c) == Elems(b)
  {
    MultiMembers(comps, b);
    var j :| 0 <= j < |comps| && comps[j] == b;
    var k :| 0 <= k < |comps| && comps[k] == big;
    assert b[0] in comps[j] && b[0] !in comps[k];
    assert b[0] in Members(comps);
    var i := MembersAt(again, b[0]);
    c := again[i];
    SameSize(b, c);
    MultiMembers(again, c);
  }

  /** After cutting or inverting the feedback arcs, the second report lists exactly the other cycles of
      the first. */
  lemma RerunReports<T(!new)>(g: Graph<T>, comps: seq<seq<T>>, big: seq<T>, order: seq<T>,
                              cut: set<(T, T)>, inverted: set<(T, T)>, again: seq<seq<T>>)
    requires SccsOf(g, comps) && Nodes(g) == g.Keys && big in comps
    requires FeedbackArcs(g, big, order, cut + inverted) && SccsOf(Repaired(g, cut, inverted), again)
    ensures forall c :: c in Multi(again) ==> exists b :: b in Multi(comps) && b != big && Elems(b) == Elems(c)
    ensures forall b :: b in Multi(comps) && b != big ==> exists c :: c in Multi(again) && Elems(c) == Elems(b)
  {
    hide DisjointLists, ExactClasses, LeavesFirst, Dissolved, FeedbackArcs;
    RerunAfterRepair(g, comps, big, order, cut, inverted, again);
    forall c | c in Multi(again) ensures exists b :: b in Multi(comps) && b != big && Elems(b) == Elems(c) {
      var b := ReportedBefore(comps, big, again, c);
    }
    forall b | b in Multi(comps) && b != big ensures exists c :: c in Multi(again) && Elems(c) == Elems(b) {
      var c := ReportedAgain(comps, big, again, b);
    }
  }

  // ----- the report

  /** A module: its size, whether it is already a facade of another crate, and how often it refers
      to each other module. */
  datatype Info<T> = Info(loc: nat, fully: bool, refs: map<T, nat>)

  function ImportGraph<T(==)>(info: map<T, Info<T>>): Graph<T> {
    map n | n in info && !info[n].fully ::
      set d | d in info[n].refs && d in info && !info[d].fully && d != n
  }

  function CycleWeights<T(==)>(info: map<T, Info<T>>, big: seq<T>): Weights<T>
    requires forall n :: n in big ==> n in info
  {
    map n | n in big :: map d | d in info[n].refs && d in big && d != n :: info[n].refs[d]
  }

  function Size<T(==)>(info: map<T, Info<T>>, comp: seq<T>): nat
    requires forall n :: n in comp ==> n in info
  {
    if comp == [] then 0 else info[comp[0]].loc + Size(info, comp[1..])
  }

  lemma ImportGraphShape<T(!new)>(info: map<T, Info<T>>)
    ensures Nodes(ImportGraph(info)) == ImportGraph(info).Keys
    ensures NoSelfEdges(ImportGraph(info))
  {
  }

  /** Every list holds what its modules hold. */
  lemma {:induction false} SizeAdds<T(!new)>(info: map<T, Info<T>>, a: seq<T>, b: seq<T>)
    requires forall n :: n in a || n in b ==> n in info
    ensures Size(info, a + b) == Size(info, a) + Size(info, b)
    ensures |a| == 1 ==> Size(info, a) == info[a[0]].loc
  {
    if a == [] {
      assert a + b == b;
    } else {
      assert (a + b)[1..] == a[1..] + b;
      SizeAdds(info, a[1..], b);
    }
  }

  // ----- the classes in terms of references

  /** Each module refers to the next, and none of them is a facade already. */
  ghost predicate Chain<T(!new)>(info: map<T, Info<T>>, p: seq<T>) {
    && p != []
    && (forall i :: 0 <= i < |p| ==> p[i] in info && !info[p[i]].fully)
    && (forall i :: 0 <= i < |p| - 1 ==> p[i + 1] in info[p[i]].refs)
  }

  ghost predicate DependsOn<T(!new)>(info: map<T, Info<T>>, u: T, v: T) {
    exists p: seq<T> :: Chain(info, p) && p[0] == u && p[|p| - 1] == v
  }

  lemma {:induction false} ChainReaches<T(!new)>(info: map<T, Info<T>>, p: seq<T>)
    requires Chain(info, p)
    ensures Reach(ImportGraph(info), p[0], p[|p| - 1])
  {
    var g := ImportGraph(info);
    if |p| == 1 {
      ReachRefl(g, p[0]);
    } else {
      ChainReaches(info, p[1..]);
      if p[0] != p[1] {
        assert Edge(g, p[0], p[1]);
        ReachEdge(g, p[0], p[1]);
        ReachTrans(g, p[0], p[1], p[|p| - 1]);
      }
    }
  }

  lemma {:induction false} WalkIsChain<T(!new)>(info: map<T, Info<T>>, u: T, q: seq<T>, v: T)
    requires Walk(ImportGraph(info), u, q, v) && u in info && !info[u].fully
    ensures Chain(info, [u] + q) && ([u] + q)[|q|] == v
  {
    if q != [] {
      WalkIsChain(info, q[0], q[1..], v);
      assert q == [q[0]] + q[1..];
      assert forall i :: 0 < i <= |q| ==> ([u] + q)[i] == q[i - 1];
    }
  }

  lemma DependsIffReach<T(!new)>(info: map<T, Info<T>>, u: T, v: T)
    requires u in info && !info[u].fully
    ensures DependsOn(info, u, v) <==> Reach(ImportGraph(info), u, v)
  {
    if DependsOn(info, u, v) {
      var p :| Chain(info, p) && p[0] == u && p[|p| - 1] == v;
      ChainReaches(info, p);
    }
    if Reach(ImportGraph(info), u, v) {
      var q :| Walk(ImportGraph(info), u, q, v);
      WalkIsChain(info, u, q, v);
    }
  }

  /** The components hold exactly the modules that are no facades, and two of them share a list if and only
      if each depends on the other through a chain of references between such modules. */
  lemma ComponentsByReferences<T(!new)>(info: map<T, Info<T>>, comps: seq<seq<T>>)
    requires SccsOf(ImportGraph(info), comps)
    ensures forall u :: u in Members(comps) <==> u in info && !info[u].fully
    ensures forall u, v :: u in Members(comps) && v in Members(comps) ==>
              ((exists i :: 0 <= i < |comps| && u in comps[i] && v in comps[i]) <==>
               DependsOn(info, u, v) && DependsOn(info, v, u))
  {
    hide DependsOn, ExactClasses, LeavesFirst, DisjointLists, Reach;
    ImportGraphShape(info);
    forall u, v | u in Members(comps) && v in Members(comps)
      ensures (exists i :: 0 <= i < |comps| && u in comps[i] && v in comps[i]) <==>
              DependsOn(info, u, v) && DependsOn(info, v, u)
    {
      SameListIffMutual(ImportGraph(info), comps, u, v);
      DependsIffReach(info, u, v);
      DependsIffReach(info, v, u);
    }
  }

  datatype BackEdge<T> = BackEdge(refs: nat, source: T, target: T)

  ghost function ArcsOf<T(!new)>(edges: seq<BackEdge<T>>): set<(T, T)> {
    set e | e in edges :: (e.source, e.target)
  }

  ghost function RefsOf<T(!new)>(edges: seq<BackEdge<T>>): nat {
    if edges == [] then 0 else edges[0].refs + RefsOf(edges[1..])
  }

  predicate Faithful<T(==)>(out: Weights<T>, e: BackEdge<T>) {
    Arc(out, e.source, e.target) && e.refs == out[e.source][e.target]
  }

  /** Every edge is listed once, with its reference count. */
  ghost predicate Tally<T(!new)>(out: Weights<T>, edges: seq<BackEdge<T>>) {
    && |edges| == |ArcsOf(edges)|
    && (forall e :: e in edges ==> Faithful(out, e))
    && RefsOf(edges) == Total(out, ArcsOf(edges))
  }

  lemma ArcsSnoc<T(!new)>(edges: seq<BackEdge<T>>, e: BackEdge<T>)
    ensures ArcsOf(edges + [e]) == ArcsOf(edges) + {(e.source, e.target)}
    ensures forall x :: x in edges + [e] <==> x in edges || x == e
  {
    assert e in edges + [e];
    assert forall x :: x in edges + [e] <==> x in edges || x == e;
  }

  lemma {:induction false} RefsSnoc<T(!new)>(edges: seq<BackEdge<T>>, e: BackEdge<T>)
    ensures RefsOf(edges + [e]) == RefsOf(edges) + e.refs
  {
    if edges == [] {
      assert [e][1..] == [];
    } else {
      RefsSnoc(edges[1..], e);
      assert (edges + [e])[1..] == edges[1..] + [e];
    }
  }

  lemma AddBackEdge<T(!new)>(out: Weights<T>, edges: seq<BackEdge<T>>, u: T, v: T)
    requires Tally(out, edges) && Arc(out, u, v) && (u, v) !in ArcsOf(edges)
    ensures ArcsOf(edges + [BackEdge(out[u][v], u, v)]) == ArcsOf(edges) + {(u, v)}
    ensures Tally(out, edges + [BackEdge(out[u][v], u, v)])
  {
    var e := BackEdge(out[u][v], u, v);
    assert Faithful(out, e);
    hide ArcsOf, RefsOf, Total, Faithful;
    ArcsSnoc(edges, e);
    RefsSnoc(edges, e);
    TotalAdd(out, ArcsOf(edges), u, v);
  }

  /** The backward edges from `u` into `s`. */
  ghost function BackInto<T(!new)>(out: Weights<T>, order: seq<T>, u: T, s: set<T>): set<(T, T)> {
    set v | v in s && Arc(out, u, v) && Before(order, v, u) :: (u, v)
  }

  lemma BackIntoAdd<T(!new)>(out: Weights<T>, order: seq<T>, u: T, s: set<T>, v: T)
    requires Arc(out, u, v) && v !in s
    ensures (u, v) !in BackInto(out, order, u, s)
    ensures BackInto(out, order, u, s + {v}) ==
            BackInto(out, order, u, s) + if Before(order, v, u) then {(u, v)} else {}
  {
  }

  /** The backward edges from the nodes in `us`. */
  ghost function BackOutOf<T(!new)>(out: Weights<T>, order: seq<T>, us: set<T>): set<(T, T)> {
    set u, v | u in us && v in order && Arc(out, u, v) && Before(order, v, u) :: (u, v)
  }

  lemma BackOutOfAdd<T(!new)>(out: Weights<T>, order: seq<T>, us: set<T>, u: T)
    requires u in out && u !in us && forall v :: v in out[u] ==> v in order
    ensures forall v :: (u, v) !in BackOutOf(out, order, us)
    ensures BackOutOf(out, order, us + {u}) == BackOutOf(out, order, us) + BackInto(out, order, u, out[u].Keys)
  {
  }

  ghost predicate AgreesWith<T(!new)>(pos: map<T, nat>, order: seq<T>) {
    && pos.Keys == Elems(order)
    && forall u, v :: u in pos && v in pos ==> (pos[u] < pos[v] <==> Before(order, u, v))
  }

  method Positions<T(==,!new)>(order: seq<T>) returns (pos: map<T, nat>)
    requires Distinct(order)
    ensures AgreesWith(pos, order)
  {
    pos := map[];
    for i := 0 to |order|
      invariant forall x :: x in pos <==> x in order[..i]
      invariant forall k :: 0 <= k < i ==> order[k] in pos && pos[order[k]] == k
    {
      pos := pos[order[i] := i];
    }
    forall u, v | u in pos && v in pos ensures pos[u] < pos[v] <==> Before(order, u, v) {
      var i :| 0 <= i < |order| && order[i] == u;
      var j :| 0 <= j < |order| && order[j] == v;
      if Before(order, u, v) {
        var k, l :| 0 <= k < l < |order| && order[k] == u && order[l] == v;
      }
    }
  }

  lemma NothingBack<T(!new)>(out: Weights<T>, order: seq<T>)
    ensures forall u :: BackInto(out, order, u, {}) == {}
    ensures BackOutOf(out, order, {}) == {}
    ensures ArcsOf<T>([]) == {} && Tally(out, [])
  {
  }

  /** Appends the backward edges of one node. */
  method BackEdgesFrom<T(==,!new)>(out: Weights<T>, order: seq<T>, pos: map<T, nat>, u: T, before: seq<BackEdge<T>>)
    returns (edges: seq<BackEdge<T>>)
    requires u in out && u in order && out[u].Keys <= Elems(order)
    requires AgreesWith(pos, order)
    requires Tally(out, before) && forall v :: (u, v) !in ArcsOf(before)
    ensures ArcsOf(edges) == ArcsOf(before) + BackInto(out, order, u, out[u].Keys)
    ensures Tally(out, edges)
  {
    hide Before, BackInto, ArcsOf, Tally;
    edges := before;
    var todo := out[u].Keys;
    ghost var done: set<T> := {};
    assert BackInto(out, order, u, {}) == {} by { NothingBack(out, order); }
    while todo != {}
      invariant done !! todo && done + todo == out[u].Keys
      invariant ArcsOf(edges) == ArcsOf(before) + BackInto(out, order, u, done)
      invariant Tally(out, edges)
      decreases todo
    {
      var v :| v in todo;
      assert Arc(out, u, v);
      BackIntoAdd(out, order, u, done, v);
      if pos[v] < pos[u] {
        AddBackEdge(out, edges, u, v);
        edges := edges + [BackEdge(out[u][v], u, v)];
      }
      todo, done := todo - {v}, done + {v};
    }
    assert done == out[u].Keys;
  }

  method TotalRefs<T(!new)>(edges: seq<BackEdge<T>>) returns (total: nat)
    ensures total == RefsOf(edges)
  {
    total := 0;
    for i := 0 to |edges|
      invariant total == RefsOf(edges[..i])
    {
      RefsSnoc(edges[..i], edges[i]);
      assert edges[..i + 1] == edges[..i] + [edges[i]];
      total := total + edges[i].refs;
    }
    assert edges[..|edges|] == edges;
  }

  // ----- cheapest first

  function Refs<T>(e: BackEdge<T>): int {
    e.refs
  }

  function SortEdges<T>(edges: seq<BackEdge<T>>): seq<BackEdge<T>> {
    Sorting.Sort(Refs, edges)
  }

  ghost predicate CheapestFirst<T(!new)>(edges: seq<BackEdge<T>>) {
    forall i, j :: 0 <= i < j < |edges| ==> edges[i].refs <= edges[j].refs
  }

  lemma {:induction false} RefsOfIsKeySum<T(!new)>(edges: seq<BackEdge<T>>)
    ensures RefsOf(edges) == Sorting.KeySum(Refs, edges)
  {
    if edges != [] {
      RefsOfIsKeySum(edges[1..]);
    }
  }

  lemma SortedTally<T(!new)>(out: Weights<T>, edges: seq<BackEdge<T>>)
    requires Tally(out, edges)
    ensures Tally(out, SortEdges(edges)) && ArcsOf(SortEdges(edges)) == ArcsOf(edges)
    ensures CheapestFirst(SortEdges(edges))
  {
    var sorted := SortEdges(edges);
    Sorting.SortKeeps(Refs, edges);
    RefsOfIsKeySum(edges);
    RefsOfIsKeySum(sorted);
    assert ArcsOf(sorted) == ArcsOf(edges);
    forall i, j | 0 <= i < j < |sorted| ensures sorted[i].refs <= sorted[j].refs {
      assert Refs(sorted[i]) <= Refs(sorted[j]);
    }
  }

  lemma BackOutOfAll<T(!new)>(out: Weights<T>, order: seq<T>)
    ensures BackOutOf(out, order, Elems(order)) == BackArcs(out, order)
  {
  }

  /** All backward edges of an order, each once and cheapest first, with their total reference count. */
  method BackEdges<T(==,!new)>(big: seq<T>, out: Weights<T>, order: seq<T>)
    returns (edges: seq<BackEdge<T>>, total: nat)
    requires Distinct(big) && Distinct(order) && Elems(order) == Elems(big) && Covers(big, out)
    ensures ArcsOf(edges) == BackArcs(out, order) && Tally(out, edges) && CheapestFirst(edges)
    ensures total == RefsOf(edges) == Total(out, BackArcs(out, order))
  {
    hide Before, BackInto, BackOutOf, ArcsOf, BackArcs, CheapestFirst;
    var pos := Positions(order);
    edges := [];
    NothingBack(out, order);
    assert Elems(big[..0]) == {};
    assert forall x :: x in order <==> x in Elems(big);
    for i := 0 to |big|
      invariant ArcsOf(edges) == BackOutOf(out, order, Elems(big[..i]))
      invariant Tally(out, edges)
    {
      assert big[i] in Elems(big);
      BackOutOfAdd(out, order, Elems(big[..i]), big[i]);
      edges := BackEdgesFrom(out, order, pos, big[i], edges);
      assert Elems(big[..i + 1]) == Elems(big[..i]) + {big[i]};
    }
    assert big[..|big|] == big;
    assert BackOutOf(out, order, Elems(order)) == BackArcs(out, order) by { BackOutOfAll(out, order); }
    SortedTally(out, edges);
    edges := SortEdges(edges);
    total := TotalRefs(edges);
  }

  // ----- from modules to report

  lemma CycleWeightsShape<T(!new)>(info: map<T, Info<T>>, big: seq<T>)
    requires forall n :: n in big ==> n in info && !info[n].fully
    ensures Covers(big, CycleWeights(info, big))
    ensures forall u, v :: Arc(CycleWeights(info, big), u, v) <==>
              u in big && v in big && u != v && v in info[u].refs
    ensures forall u, v :: Arc(CycleWeights(info, big), u, v) ==> CycleWeights(info, big)[u][v] == info[u].refs[v]
    ensures forall u, v :: u in big && v in big ==>
              (Edge(ImportGraph(info), u, v) <==> Arc(CycleWeights(info, big), u, v))
  {
  }

  /** The backward edges of the greedy order are feedback arcs of the whole import graph. */
  lemma BackArcsCut<T(!new)>(info: map<T, Info<T>>, big: seq<T>, order: seq<T>)
    requires forall n :: n in big ==> n in info && !info[n].fully
    requires forall u, v :: u in big ==> (v in big <==> Mutual(ImportGraph(info), u, v))
    requires Distinct(order) && Elems(order) == Elems(big)
    ensures FeedbackArcs(ImportGraph(info), big, order, BackArcs(CycleWeights(info, big), order))
  {
    var g, w := ImportGraph(info), CycleWeights(info, big);
    CycleWeightsShape(info, big);
    assert forall x :: x in order <==> x in Elems(big);
    forall u, v | u in big && v in big && Edge(g, u, v) && (u, v) !in BackArcs(w, order) ensures Before(order, u, v) {
      assert Arc(w, u, v) && u != v;
      BeforeTotal(order, u, v);
    }
  }

  /** The listed edges in terms of references. */
  lemma ListedEdges<T(!new)>(info: map<T, Info<T>>, big: seq<T>, order: seq<T>, edges: seq<BackEdge<T>>)
    requires forall n :: n in big ==> n in info && !info[n].fully
    requires Distinct(order) && Elems(order) == Elems(big)
    requires Tally(CycleWeights(info, big), edges) && ArcsOf(edges) == BackArcs(CycleWeights(info, big), order)
    ensures forall e :: e in edges ==>
              && e.source in info && e.target in info[e.source].refs
              && e.refs == info[e.source].refs[e.target]
    ensures forall u, v :: (u, v) in ArcsOf(edges) <==>
              u in big && v in big && u in info && v in info[u].refs && Before(order, v, u)
  {
    CycleWeightsShape(info, big);
    assert forall x :: x in order <==> x in Elems(big);
    forall u ensures !Before(order, u, u) {
      BeforeIrreflexive(order, u);
    }
    forall e | e in edges
      ensures e.source in info && e.target in info[e.source].refs && e.refs == info[e.source].refs[e.target]
    {
      assert Faithful(CycleWeights(info, big), e);
    }
  }

  /** The first largest list. */
  method Largest<T(==,!new)>(info: map<T, Info<T>>, cycles: seq<seq<T>>) returns (big: seq<T>)
    requires cycles != [] && forall c, n :: c in cycles && n in c ==> n in info
    ensures big in cycles && forall c :: c in cycles ==> Size(info, c) <= Size(info, big)
    ensures exists k :: 0 <= k < |cycles| && cycles[k] == big
              && forall j :: 0 <= j < k ==> Size(info, cycles[j]) < Size(info, big)
  {
    big := cycles[0];
    for i := 1 to |cycles|
      invariant big in cycles && forall j :: 0 <= j < i ==> Size(info, cycles[j]) <= Size(info, big)
      invariant exists k :: 0 <= k < i && cycles[k] == big
                  && forall j :: 0 <= j < k ==> Size(info, cycles[j]) < Size(info, big)
    {
      if Size(info, cycles[i]) > Size(info, big) {
        big := cycles[i];
      }
    }
  }

  /** The whole analysis. `cycles` is empty exactly for an acyclic graph; otherwise `edges` are cut
      edges for the largest cycle, and they carry at most half of its references. */
  method Analyse<T(==,!new)>(info: map<T, Info<T>>)
    returns (sccs: seq<seq<T>>, cycles: seq<seq<T>>, big: seq<T>, order: seq<T>,
              edges: seq<BackEdge<T>>, totalBack: nat)
    ensures SccsOf(ImportGraph(info), sccs) && cycles == Multi(sccs)
    ensures forall c :: c in cycles <==> c in sccs && |c| > 1
    ensures cycles == [] <==> Acyclic(ImportGraph(info))
    ensures forall c, u :: c in cycles && u in c ==> u in info && OnCycle(ImportGraph(info), u)
    ensures cycles != [] ==>
              && big in cycles && (forall c :: c in cycles ==> Size(info, c) <= Size(info, big))
              && FeedbackArcs(ImportGraph(info), big, order, ArcsOf(edges))
              && Tally(CycleWeights(info, big), edges) && CheapestFirst(edges)
              && (forall e :: e in edges ==>
                    && e.source in info && e.target in info[e.source].refs
                    && e.refs == info[e.source].refs[e.target])
              && (forall u, v :: (u, v) in ArcsOf(edges) <==>
                    u in big && v in big && u in info && v in info[u].refs && Before(order, v, u))
              && totalBack == RefsOf(edges)
              && 2 * totalBack <= Total(CycleWeights(info, big), Arcs(CycleWeights(info, big), Elems(big)))
  {
    hide Tally, CheapestFirst, Edge, Reach, Before, Acyclic, OnCycle, BackArcs,
      Arcs, ExactClasses, LeavesFirst, FeedbackArcs, ArcsOf;
    var g := ImportGraph(info);
    ImportGraphShape(info);
    sccs := Tarjan.StronglyConnectedComponents(g);
    ghost var comps := sccs;
    cycles := Multi(sccs);
    NoMultiIffAcyclic(g, comps);
    forall c ensures c in cycles <==> c in sccs && |c| > 1 {
      MultiMembers(comps, c);
    }
    forall c, u | c in cycles && u in c ensures u in g && OnCycle(g, u) {
      MultiMeansCycle(g, comps, c, u);
      MultiMembers(comps, c);
      assert u in Members(comps);
    }
    big, order, edges, totalBack := [], [], [], 0;
    if cycles != [] {
      big := Largest(info, cycles);
      MultiMembers(comps, big);
      ghost var i :| 0 <= i < |comps| && comps[i] == big;
      var w := CycleWeights(info, big);
      CycleWeightsShape(info, big);
      ghost var moves;
      order, moves := EadesOrder(big, w);
      edges, totalBack := BackEdges(big, w, order);
      forall u, v | u in big ensures v in big <==> Mutual(g, u, v) {
        ClassOf(g, comps, i, u, v);
      }
      BackArcsCut(info, big, order);
      ListedEdges(info, big, order, edges);
    }
  }

  /** The edges listed for evicting `n` are exactly what has to be cut or inverted: any choice without
      one of them leaves `n` in a cycle, and there is always at least one. */
  lemma EvictionCost<T(!new)>(info: map<T, Info<T>>, comps: seq<seq<T>>, i: nat, n: T, cut: set<T>, inverted: set<T>,
                              again: seq<seq<T>>)
    requires SccsOf(ImportGraph(info), comps) && i < |comps| && n in comps[i] && |comps[i]| > 1
    requires forall x :: x in comps[i] ==> x in info && !info[x].fully
    requires inverted <= CycleWeights(info, comps[i])[n].Keys
    requires SccsOf(Evicted(ImportGraph(info), n, cut, inverted), again)
    ensures [n] in again <==> CycleWeights(info, comps[i])[n].Keys <= cut + inverted
    ensures CycleWeights(info, comps[i])[n] != map[]
  {
    var g, w := ImportGraph(info), CycleWeights(info, comps[i]);
    CycleWeightsShape(info, comps[i]);
    assert forall y :: y in w[n] <==> y in g[n] && y in comps[i];
    EvictionSound(g, comps, i, n, cut, inverted, again);
    var v := if comps[i][0] == n then comps[i][1] else comps[i][0];
    ClassOf(g, comps, i, n, v);
    var y := ReachFirst(g, n, v);
    ReachEdge(g, n, y);
    ReachTrans(g, y, v, n);
    ClassOf(g, comps, i, n, y);
    assert y in w[n];
  }
}
