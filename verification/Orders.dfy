/** Linear orders given by duplicate-free lists, and why edges that only go forward make no cycle. */
module Orders {
  import opened Digraph
  import opened Components

  ghost predicate Before<T(!new)>(order: seq<T>, u: T, v: T) {
    exists i, j :: 0 <= i < j < |order| && order[i] == u && order[j] == v
  }

  lemma BeforeCons<T(!new)>(n: T, rest: seq<T>, u: T, v: T)
    ensures Before([n] + rest, u, v) <==> Before(rest, u, v) || (u == n && v in rest)
  {
    var order := [n] + rest;
    if Before(order, u, v) {
      var i, j :| 0 <= i < j < |order| && order[i] == u && order[j] == v;
      assert rest[j - 1] == v;
      if i > 0 {
        assert rest[i - 1] == u;
      }
    }
    if Before(rest, u, v) {
      var i, j :| 0 <= i < j < |rest| && rest[i] == u && rest[j] == v;
      assert order[i + 1] == u && order[j + 1] == v;
    }
    if u == n && v in rest {
      var j :| 0 <= j < |rest| && rest[j] == v;
      assert order[0] == u && order[j + 1] == v;
    }
  }

  lemma BeforeSnoc<T(!new)>(rest: seq<T>, n: T, u: T, v: T)
    ensures Before(rest + [n], u, v) <==> Before(rest, u, v) || (u in rest && v == n)
  {
    var order := rest + [n];
    if Before(order, u, v) {
      var i, j :| 0 <= i < j < |order| && order[i] == u && order[j] == v;
      assert rest[i] == u;
      if j < |rest| {
        assert rest[j] == v;
      }
    }
    if Before(rest, u, v) {
      var i, j :| 0 <= i < j < |rest| && rest[i] == u && rest[j] == v;
      assert order[i] == u && order[j] == v;
    }
    if u in rest && v == n {
      var i :| 0 <= i < |rest| && rest[i] == u;
      assert order[i] == u && order[|rest|] == v;
    }
  }

  lemma BeforeIrreflexive<T(!new)>(order: seq<T>, u: T)
    requires Distinct(order)
    ensures !Before(order, u, u)
  {
  }

  lemma BeforeTrans<T(!new)>(order: seq<T>, u: T, v: T, w: T)
    requires Distinct(order) && Before(order, u, v) && Before(order, v, w)
    ensures Before(order, u, w)
  {
    var i, j :| 0 <= i < j < |order| && order[i] == u && order[j] == v;
    var k, l :| 0 <= k < l < |order| && order[k] == v && order[l] == w;
    assert j == k;
  }

  lemma BeforeTotal<T(!new)>(order: seq<T>, u: T, v: T)
    requires u in order && v in order && u != v
    ensures Before(order, u, v) || Before(order, v, u)
  {
    var i :| 0 <= i < |order| && order[i] == u;
    var j :| 0 <= j < |order| && order[j] == v;
    assert i < j || j < i;
  }

  /** Every edge between listed nodes agrees with the order. */
  ghost predicate Forward<T(!new)>(g: Graph<T>, order: seq<T>) {
    forall u, v :: u in order && v in order && Edge(g, u, v) ==> Before(order, u, v)
  }

  lemma {:induction false} ForwardWalk<T(!new)>(g: Graph<T>, order: seq<T>, u: T, p: seq<T>, v: T)
    requires Distinct(order) && Forward(g, order)
    requires u in order && (forall x :: x in p ==> x in order)
    requires p != [] && Walk(g, u, p, v)
    ensures Before(order, u, v)
  {
    assert Before(order, u, p[0]);
    if p[1..] != [] {
      ForwardWalk(g, order, p[0], p[1..], v);
      BeforeTrans(order, u, p[0], v);
    }
  }

  lemma {:induction false} WalkStaysInside<T(!new)>(g: Graph<T>, s: set<T>, u: T, p: seq<T>, v: T)
    requires Closed(g, s) && u in s && Walk(g, u, p, v)
    ensures forall x :: x in p ==> x in s
  {
    if p != [] {
      WalkStaysInside(g, s, p[0], p[1..], v);
      assert forall x :: x in p ==> x == p[0] || x in p[1..];
    }
  }

  /** Edges that only go forward close no cycle through the listed nodes. */
  lemma ForwardNoCycle<T(!new)>(g: Graph<T>, order: seq<T>, u: T)
    requires Distinct(order) && Forward(g, order) && Closed(g, Elems(order)) && u in order
    ensures !OnCycle(g, u)
  {
    if OnCycle(g, u) {
      var w :| Edge(g, u, w) && Reach(g, w, u);
      var q :| Walk(g, w, q, u);
      var p := [w] + q;
      assert p[1..] == q;
      WalkStaysInside(g, Elems(order), u, p, u);
      ForwardWalk(g, order, u, p, u);
      BeforeIrreflexive(order, u);
    }
  }

  ghost function Strictly<T(!new)>(g: Graph<T>, rem: set<T>, n: T): set<T> {
    set x | x in rem && exists w :: Edge(g, n, w) && Reach(g, w, x)
  }

  ghost predicate HasSucc<T(!new)>(g: Graph<T>, rem: set<T>, u: T) {
    exists v :: v in rem && Edge(g, u, v)
  }

  lemma StrictlyShrinks<T(!new)>(g: Graph<T>, rem: set<T>, n: T, m: T)
    requires m in rem && Edge(g, n, m) && !OnCycle(g, m)
    ensures Strictly(g, rem, m) < Strictly(g, rem, n)
  {
    ReachRefl(g, m);
    forall x | x in Strictly(g, rem, m) ensures x in Strictly(g, rem, n) {
      var w :| Edge(g, m, w) && Reach(g, w, x);
      ReachEdge(g, m, w);
      ReachTrans(g, m, w, x);
    }
    assert m in Strictly(g, rem, n) && m !in Strictly(g, rem, m);
  }

  lemma SubsetSmaller<T(!new)>(a: set<T>, b: set<T>)
    requires a < b
    ensures |a| < |b|
  {
    assert b == a + (b - a);
    assert b - a != {};
  }

  /** Where every node has a successor, some node lies on a cycle. */
  lemma {:induction false} NoSinkMakesCycle<T(!new)>(g: Graph<T>, rem: set<T>, n: T) returns (c: T)
    requires n in rem
    requires forall u {:trigger HasSucc(g, rem, u)} :: u in rem ==> HasSucc(g, rem, u)
    ensures c in rem && OnCycle(g, c)
    decreases |Strictly(g, rem, n)|
  {
    assert HasSucc(g, rem, n);
    var m :| m in rem && Edge(g, n, m);
    if OnCycle(g, m) {
      c := m;
    } else {
      StrictlyShrinks(g, rem, n, m);
      SubsetSmaller(Strictly(g, rem, m), Strictly(g, rem, n));
      c := NoSinkMakesCycle(g, rem, m);
    }
  }
}
