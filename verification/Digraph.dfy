/** Finite directed graphs as adjacency maps, with reachability witnessed by explicit walks.
    A node that is only mentioned as a successor has no entry of its own and no successors. */
module Digraph {

  type Graph<T(==)> = map<T, set<T>>

  function Succ<T(==)>(g: Graph<T>, u: T): set<T> {
    if u in g then g[u] else {}
  }

  function Nodes<T(==)>(g: Graph<T>): set<T> {
    g.Keys + set u, v | u in g && v in g[u] :: v
  }

  predicate Edge<T(==)>(g: Graph<T>, u: T, v: T) {
    v in Succ(g, u)
  }

  /** `p` lists the nodes after `u` on a walk from `u` that ends in `v`. */
  ghost predicate Walk<T(!new)>(g: Graph<T>, u: T, p: seq<T>, v: T) {
    if p == [] then u == v else Edge(g, u, p[0]) && Walk(g, p[0], p[1..], v)
  }

  ghost predicate Reach<T(!new)>(g: Graph<T>, u: T, v: T) {
    exists p: seq<T> :: Walk(g, u, p, v)
  }

  ghost predicate Mutual<T(!new)>(g: Graph<T>, u: T, v: T) {
    Reach(g, u, v) && Reach(g, v, u)
  }

  ghost predicate OnCycle<T(!new)>(g: Graph<T>, u: T) {
    exists w :: Edge(g, u, w) && Reach(g, w, u)
  }

  ghost predicate Acyclic<T(!new)>(g: Graph<T>) {
    forall u :: !OnCycle(g, u)
  }

  predicate NoSelfEdges<T(==)>(g: Graph<T>) {
    forall u :: u in g ==> u !in g[u]
  }

  ghost predicate Closed<T(!new)>(g: Graph<T>, s: set<T>) {
    forall u, v :: u in s && Edge(g, u, v) ==> v in s
  }

  lemma WalkConcat<T(!new)>(g: Graph<T>, u: T, p: seq<T>, v: T, q: seq<T>, w: T)
    requires Walk(g, u, p, v) && Walk(g, v, q, w)
    ensures Walk(g, u, p + q, w)
  {
    if p == [] {
      assert p + q == q;
    } else {
      WalkConcat(g, p[0], p[1..], v, q, w);
      assert (p + q)[1..] == p[1..] + q;
    }
  }

  lemma ReachRefl<T(!new)>(g: Graph<T>, u: T)
    ensures Reach(g, u, u)
  {
    assert Walk(g, u, [], u);
  }

  lemma ReachTrans<T(!new)>(g: Graph<T>, u: T, v: T, w: T)
    requires Reach(g, u, v) && Reach(g, v, w)
    ensures Reach(g, u, w)
  {
    var p :| Walk(g, u, p, v);
    var q :| Walk(g, v, q, w);
    WalkConcat(g, u, p, v, q, w);
  }

  lemma ReachEdge<T(!new)>(g: Graph<T>, u: T, v: T)
    requires Edge(g, u, v)
    ensures Reach(g, u, v)
  {
    assert Walk(g, v, [], v);
    assert [v][1..] == [];
    assert Walk(g, u, [v], v);
  }

  /** Either the two ends coincide or the walk leaves through an edge. */
  lemma ReachFirst<T(!new)>(g: Graph<T>, u: T, v: T) returns (w: T)
    requires Reach(g, u, v)
    ensures u == v || (Edge(g, u, w) && Reach(g, w, v))
  {
    var p :| Walk(g, u, p, v);
    w := u;
    if p != [] {
      w := p[0];
      assert Walk(g, w, p[1..], v);
    }
  }

  lemma MutualTrans<T(!new)>(g: Graph<T>, u: T, v: T, w: T)
    requires Mutual(g, u, v) && Mutual(g, v, w)
    ensures Mutual(g, u, w)
  {
    ReachTrans(g, u, v, w);
    ReachTrans(g, w, v, u);
  }

  lemma {:induction false} ClosedWalk<T(!new)>(g: Graph<T>, s: set<T>, u: T, p: seq<T>, v: T)
    requires Closed(g, s) && u in s && Walk(g, u, p, v)
    ensures v in s
  {
    if p != [] {
      ClosedWalk(g, s, p[0], p[1..], v);
    }
  }

  /** No walk leaves a closed set. */
  lemma ClosedReach<T(!new)>(g: Graph<T>, s: set<T>, u: T, v: T)
    requires Closed(g, s) && u in s && Reach(g, u, v)
    ensures v in s
  {
    var p :| Walk(g, u, p, v);
    ClosedWalk(g, s, u, p, v);
  }
}
