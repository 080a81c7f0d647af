/** What cutting and inverting edges does to the classes of a graph. */
module Repair {
  import opened Digraph
  import opened Components
  import opened Orders

  /** The graph with some edges removed and others turned round. */
  function Repaired<T(==)>(g: Graph<T>, cut: set<(T, T)>, inverted: set<(T, T)>): Graph<T> {
    map u | u in g ::
      (set v | v in g[u] && (u, v) !in cut && (u, v) !in inverted) +
      (set e | e in inverted && e.1 == u :: e.0)
  }

  // ----- graphs that add no reachability

  /** Every edge of `h` can be replaced by a walk in `g`. */
  ghost predicate Within<T(!new)>(h: Graph<T>, g: Graph<T>) {
    forall x, y :: Edge(h, x, y) ==> Reach(g, x, y)
  }

  lemma {:induction false} WithinWalk<T(!new)>(h: Graph<T>, g: Graph<T>, u: T, p: seq<T>, v: T)
    requires Within(h, g) && Walk(h, u, p, v)
    ensures Reach(g, u, v)
  {
    if p == [] {
      ReachRefl(g, u);
    } else {
      WithinWalk(h, g, p[0], p[1..], v);
      ReachTrans(g, u, p[0], v);
    }
  }

  lemma WithinReach<T(!new)>(h: Graph<T>, g: Graph<T>, u: T, v: T)
    requires Within(h, g) && Reach(h, u, v)
    ensures Reach(g, u, v)
  {
    var p :| Walk(h, u, p, v);
    WithinWalk(h, g, u, p, v);
  }

  lemma WithinItself<T(!new)>(g: Graph<T>)
    ensures Within(g, g)
  {
    forall x, y | Edge(g, x, y) ensures Reach(g, x, y) {
      ReachEdge(g, x, y);
    }
  }

  /** A walk of `h` between nodes of one class of `g` stays in that class. */
  lemma {:induction false} WalkInClass<T(!new)>(h: Graph<T>, g: Graph<T>, u: T, p: seq<T>, v: T)
    requires Within(h, g) && Walk(h, u, p, v) && Reach(g, v, u)
    ensures forall x :: x in p ==> Mutual(g, u, x)
  {
    if p != [] {
      WithinWalk(h, g, p[0], p[1..], v);
      ReachTrans(g, v, u, p[0]);
      ReachTrans(g, p[0], v, u);
      WalkInClass(h, g, p[0], p[1..], v);
      forall x | x in p ensures Mutual(g, u, x) {
        if x != p[0] {
          assert x in p[1..];
          MutualTrans(g, u, p[0], x);
        }
      }
    }
  }

  /** Where `h` has all edges of `g` between nodes outside `s`, walks outside `s` survive. */
  lemma {:induction false} WalkOutside<T(!new)>(g: Graph<T>, h: Graph<T>, s: set<T>, u: T, p: seq<T>, v: T)
    requires forall x, y :: Edge(g, x, y) && x !in s && y !in s ==> Edge(h, x, y)
    requires Walk(g, u, p, v) && u !in s && forall x :: x in p ==> x !in s
    ensures Walk(h, u, p, v)
  {
    if p != [] {
      WalkOutside(g, h, s, p[0], p[1..], v);
    }
  }

  lemma ReachStays<T(!new)>(g: Graph<T>, h: Graph<T>, s: set<T>, u: T, v: T)
    requires Mutual(g, u, v) && u !in s
    requires forall x, y :: x in s ==> (y in s <==> Mutual(g, x, y))
    requires forall x, y :: Edge(g, x, y) && x !in s && y !in s ==> Edge(h, x, y)
    ensures Reach(h, u, v)
  {
    var p :| Walk(g, u, p, v);
    WithinItself(g);
    WalkInClass(g, g, u, p, v);
    forall x | x in p ensures x !in s {
      assert x in s ==> Mutual(g, x, u);
    }
    WalkOutside(g, h, s, u, p, v);
  }

  /** `s` is a class of `g`, outside of which `h` has all edges of `g`. Then the other classes stay. */
  lemma OtherClassesStay<T(!new)>(g: Graph<T>, h: Graph<T>, s: set<T>, u: T, v: T)
    requires Within(h, g) && u !in s
    requires forall x, y :: x in s ==> (y in s <==> Mutual(g, x, y))
    requires forall x, y :: Edge(g, x, y) && x !in s && y !in s ==> Edge(h, x, y)
    ensures Mutual(h, u, v) <==> Mutual(g, u, v)
  {
    if Mutual(h, u, v) {
      WithinReach(h, g, u, v);
      WithinReach(h, g, v, u);
    }
    if Mutual(g, u, v) {
      assert v !in s by {
        assert v in s ==> Mutual(g, v, u);
      }
      ReachStays(g, h, s, u, v);
      ReachStays(g, h, s, v, u);
    }
  }

  /** Every list of the second search lies inside one list of the first. */
  lemma ListsShrink<T(!new)>(g: Graph<T>, comps: seq<seq<T>>, h: Graph<T>, again: seq<seq<T>>, i: nat) returns (j: nat)
    requires SccsOf(g, comps) && SccsOf(h, again) && Within(h, g) && Nodes(h) <= Nodes(g) && i < |again|
    ensures j < |comps| && Elems(again[i]) <= Elems(comps[j])
  {
    var u := again[i][0];
    assert u in again[i] && u in Members(again);
    j := MembersAt(comps, u);
    forall v | v in again[i] ensures v in comps[j] {
      ClassOf(h, again, i, u, v);
      WithinReach(h, g, u, v);
      WithinReach(h, g, v, u);
      ClassOf(g, comps, j, u, v);
    }
  }

  // ----- making a class acyclic

  /** `big` is one class of `g`, and `arcs` are the edges inside it that go against `order`. */
  ghost predicate FeedbackArcs<T(!new)>(g: Graph<T>, big: seq<T>, order: seq<T>, arcs: set<(T, T)>) {
    && (forall u, v :: u in big ==> (v in big <==> Mutual(g, u, v)))
    && Distinct(order) && Elems(order) == Elems(big)
    && (forall u, v :: (u, v) in arcs ==> u in big && v in big && Before(order, v, u))
    && (forall u, v :: u in big && v in big && Edge(g, u, v) && (u, v) !in arcs ==> Before(order, u, v))
  }

  lemma RepairedEdge<T(!new)>(g: Graph<T>, cut: set<(T, T)>, inverted: set<(T, T)>, u: T, v: T)
    ensures Edge(Repaired(g, cut, inverted), u, v) <==>
            u in g && ((Edge(g, u, v) && (u, v) !in cut + inverted) || (v, u) in inverted)
  {
  }

  /** Feedback arcs, however divided into cut and inverted ones, give no new reachability ... */
  lemma RepairedWithin<T(!new)>(g: Graph<T>, big: seq<T>, order: seq<T>, cut: set<(T, T)>, inverted: set<(T, T)>)
    requires FeedbackArcs(g, big, order, cut + inverted)
    ensures Within(Repaired(g, cut, inverted), g)
  {
    hide Repaired;
    forall x, y | Edge(Repaired(g, cut, inverted), x, y) ensures Reach(g, x, y) {
      RepairedEdge(g, cut, inverted, x, y);
      if (y, x) in inverted {
        assert (y, x) in cut + inverted;
        assert Mutual(g, y, x);
      } else {
        ReachEdge(g, x, y);
      }
    }
  }

  lemma EdgeSource<T(!new)>(g: Graph<T>, u: T, v: T)
    requires Edge(g, u, v)
    ensures u in g
  {
  }

  /** ... leave only forward edges inside the class, and all edges outside it. */
  lemma RepairedShape<T(!new)>(g: Graph<T>, big: seq<T>, order: seq<T>, cut: set<(T, T)>, inverted: set<(T, T)>)
    requires FeedbackArcs(g, big, order, cut + inverted)
    ensures var h := Repaired(g, cut, inverted);
            && (forall u, v :: u in big && v in big && Edge(h, u, v) ==> Before(order, u, v))
            && (forall u, v :: Edge(g, u, v) && u !in big && v !in big ==> Edge(h, u, v))
  {
    hide Repaired, Before, Reach, Edge;
    var h := Repaired(g, cut, inverted);
    forall u, v | u in big && v in big && Edge(h, u, v) ensures Before(order, u, v) {
      RepairedEdge(g, cut, inverted, u, v);
      assert (v, u) in inverted ==> (v, u) in cut + inverted;
    }
    forall u, v | Edge(g, u, v) && u !in big && v !in big ensures Edge(h, u, v) {
      RepairedEdge(g, cut, inverted, u, v);
      EdgeSource(g, u, v);
    }
  }

  lemma RepairedForward<T(!new)>(g: Graph<T>, h: Graph<T>, big: seq<T>, order: seq<T>, u: T, v: T)
    requires Within(h, g) && forall x, y :: x in big ==> (y in big <==> Mutual(g, x, y))
    requires Distinct(order) && Elems(order) == Elems(big)
    requires forall x, y :: x in big && y in big && Edge(h, x, y) ==> Before(order, x, y)
    requires u in big && u != v && Reach(h, u, v) && Reach(g, v, u)
    ensures Before(order, u, v)
  {
    var p :| Walk(h, u, p, v);
    WalkInClass(h, g, u, p, v);
    assert forall x :: x in order <==> x in Elems(big);
    ForwardWalk(h, order, u, p, v);
  }

  lemma RepairedMember<T(!new)>(g: Graph<T>, h: Graph<T>, big: seq<T>, order: seq<T>, u: T, v: T)
    requires Within(h, g) && forall x, y :: x in big ==> (y in big <==> Mutual(g, x, y))
    requires Distinct(order) && Elems(order) == Elems(big)
    requires forall x, y :: x in big && y in big && Edge(h, x, y) ==> Before(order, x, y)
    requires u in big && u != v
    ensures !Mutual(h, u, v)
  {
    if Mutual(h, u, v) {
      WithinReach(h, g, u, v);
      WithinReach(h, g, v, u);
      assert v in big by { assert Mutual(g, u, v); }
      hide Within, Edge, Reach, Before;
      RepairedForward(g, h, big, order, u, v);
      RepairedForward(g, h, big, order, v, u);
      BeforeTrans(order, u, v, u);
      BeforeIrreflexive(order, u);
    }
  }

  /** Cutting or inverting the feedback arcs dissolves the class into single nodes and leaves every
      other class of the graph as it was. */
  lemma RepairDissolves<T(!new)>(g: Graph<T>, big: seq<T>, order: seq<T>, cut: set<(T, T)>, inverted: set<(T, T)>,
      u: T, v: T)
    requires FeedbackArcs(g, big, order, cut + inverted)
    ensures Mutual(Repaired(g, cut, inverted), u, v) <==> Mutual(g, u, v) && (u == v || u !in big)
  {
    hide Repaired, Within, Edge, Reach, Before, Distinct;
    var h := Repaired(g, cut, inverted);
    RepairedWithin(g, big, order, cut, inverted);
    RepairedShape(g, big, order, cut, inverted);
    if u == v {
      ReachRefl(h, u);
      ReachRefl(g, u);
    } else if u in big {
      RepairedMember(g, h, big, order, u, v);
    } else {
      assert forall x :: x in Elems(big) <==> x in big;
      OtherClassesStay(g, h, Elems(big), u, v);
    }
  }

  /** The members of `big` stand alone in `again`, and every other list has a counterpart with the same
      members. */
  ghost predicate Dissolved<T(!new)>(comps: seq<seq<T>>, big: seq<T>, again: seq<seq<T>>) {
    && (forall i, u :: 0 <= i < |again| && u in again[i] && u in big ==> again[i] == [u])
    && (forall i, j, u :: 0 <= i < |again| && 0 <= j < |comps| && u in again[i] && u in comps[j] && u !in big ==>
          Elems(again[i]) == Elems(comps[j]))
    && Members(again) == Members(comps)
  }

  lemma RepairedNodes<T(!new)>(g: Graph<T>, cut: set<(T, T)>, inverted: set<(T, T)>)
    requires Nodes(g) == g.Keys && forall e :: e in inverted ==> e.0 in g
    ensures Nodes(Repaired(g, cut, inverted)) == g.Keys
  {
    var h := Repaired(g, cut, inverted);
    assert h.Keys == g.Keys;
    forall u, v | u in h && v in h[u] ensures v in g {
      if (v, u) !in inverted {
        assert v in g[u];
      }
    }
  }

  lemma InvertedSources<T(!new)>(g: Graph<T>, comps: seq<seq<T>>, big: seq<T>, order: seq<T>,
                                 cut: set<(T, T)>, inverted: set<(T, T)>)
    requires Members(comps) == Nodes(g) == g.Keys && big in comps && FeedbackArcs(g, big, order, cut + inverted)
    ensures forall e :: e in inverted ==> e.0 in g
  {
    var i :| 0 <= i < |comps| && comps[i] == big;
    forall e | e in inverted ensures e.0 in g {
      assert (e.0, e.1) in cut + inverted;
      assert e.0 in comps[i] && e.0 in Members(comps);
    }
  }

  lemma OnlyMember<T(!new)>(c: seq<T>, u: T)
    requires Distinct(c) && u in c && forall v :: v in c ==> v == u
    ensures c == [u]
  {
    forall k | 0 <= k < |c| ensures c[k] == u {
      assert c[k] in c;
    }
    assert c[0] == c[|c| - 1];
  }

  /** Running the component search again after the repair: the members of `big` come out alone, and
      the other lists come out with the same members as before. */
  lemma RerunAfterRepair<T(!new)>(g: Graph<T>, comps: seq<seq<T>>, big: seq<T>, order: seq<T>,
                                  cut: set<(T, T)>, inverted: set<(T, T)>, again: seq<seq<T>>)
    requires SccsOf(g, comps) && Nodes(g) == g.Keys && big in comps
    requires FeedbackArcs(g, big, order, cut + inverted) && SccsOf(Repaired(g, cut, inverted), again)
    ensures Dissolved(comps, big, again)
  {
    hide FeedbackArcs, LeavesFirst;
    var h := Repaired(g, cut, inverted);
    forall i, u | 0 <= i < |again| && u in again[i] && u in big ensures again[i] == [u] {
      forall v | v in again[i] ensures v == u {
        ClassOf(h, again, i, u, v);
        RepairDissolves(g, big, order, cut, inverted, u, v);
      }
      OnlyMember(again[i], u);
    }
    forall i, j, u | 0 <= i < |again| && 0 <= j < |comps| && u in again[i] && u in comps[j] && u !in big
      ensures Elems(again[i]) == Elems(comps[j])
    {
      forall v ensures v in again[i] <==> v in comps[j] {
        ClassOf(h, again, i, u, v);
        ClassOf(g, comps, j, u, v);
        RepairDissolves(g, big, order, cut, inverted, u, v);
      }
    }
    InvertedSources(g, comps, big, order, cut, inverted);
    RepairedNodes(g, cut, inverted);
  }

  // ----- evicting a module

  ghost function EdgesOf<T(!new)>(n: T, targets: set<T>): set<(T, T)> {
    set y | y in targets :: (n, y)
  }

  /** Some out-edges of `n` cut, and some of those into its own class inverted. */
  ghost function Evicted<T(!new)>(g: Graph<T>, n: T, cut: set<T>, inverted: set<T>): Graph<T> {
    Repaired(g, EdgesOf(n, cut), EdgesOf(n, inverted))
  }

  ghost predicate IntoClass<T(!new)>(g: Graph<T>, n: T, targets: set<T>) {
    forall y :: y in targets ==> Edge(g, n, y) && Mutual(g, n, y)
  }

  lemma EvictedEdges<T(!new)>(g: Graph<T>, n: T, cut: set<T>, inverted: set<T>)
    requires !Edge(g, n, n) && IntoClass(g, n, inverted)
    ensures var h := Evicted(g, n, cut, inverted);
            && Within(h, g)
            && (forall y :: Edge(h, n, y) <==> Edge(g, n, y) && y !in cut + inverted)
            && (forall x, y :: x != n && Edge(g, x, y) ==> Edge(h, x, y))
  {
    var h := Evicted(g, n, cut, inverted);
    forall x, y | Edge(h, x, y) ensures Reach(g, x, y) {
      if x in inverted && y == n {
        assert Mutual(g, n, x);
      } else {
        ReachEdge(g, x, y);
      }
    }
    assert n !in inverted;
    forall y ensures Edge(h, n, y) <==> Edge(g, n, y) && y !in cut + inverted {
      assert (n, y) in EdgesOf(n, cut) <==> y in cut;
      assert (n, y) in EdgesOf(n, inverted) <==> y in inverted;
    }
    forall x, y | x != n && Edge(g, x, y) ensures Edge(h, x, y) {
      assert (x, y) !in EdgesOf(n, cut) && (x, y) !in EdgesOf(n, inverted);
    }
  }

  lemma {:induction false} ReachAvoidingSource<T(!new)>(g: Graph<T>, h: Graph<T>, n: T, y: T, p: seq<T>)
    requires forall u, v :: u != n && Edge(g, u, v) ==> Edge(h, u, v)
    requires Walk(g, y, p, n)
    ensures Reach(h, y, n)
  {
    if y == n {
      ReachRefl(h, n);
    } else {
      assert Edge(g, y, p[0]);
      ReachAvoidingSource(g, h, n, p[0], p[1..]);
      ReachEdge(h, y, p[0]);
      ReachTrans(h, y, p[0], n);
    }
  }

  /** A module leaves its class if and only if all its edges into the class are cut or inverted. */
  lemma EvictedIff<T(!new)>(g: Graph<T>, n: T, cut: set<T>, inverted: set<T>)
    requires !Edge(g, n, n) && IntoClass(g, n, inverted)
    ensures (forall x :: Mutual(Evicted(g, n, cut, inverted), n, x) ==> x == n) <==>
            (forall y :: Edge(g, n, y) && Mutual(g, n, y) ==> y in cut + inverted)
  {
    hide Evicted;
    var h := Evicted(g, n, cut, inverted);
    EvictedEdges(g, n, cut, inverted);
    if forall x :: Mutual(h, n, x) ==> x == n {
      forall y | Edge(g, n, y) && Mutual(g, n, y) ensures y in cut + inverted {
        var p :| Walk(g, y, p, n);
        ReachAvoidingSource(g, h, n, y, p);
        if Edge(h, n, y) {
          ReachEdge(h, n, y);
        }
        assert Edge(h, n, y) ==> Mutual(h, n, y);
      }
    }
    if forall y :: Edge(g, n, y) && Mutual(g, n, y) ==> y in cut + inverted {
      forall x | Mutual(h, n, x) ensures x == n {
        if x != n {
          var y := ReachFirst(h, n, x);
          ReachTrans(h, y, x, n);
          WithinReach(h, g, y, n);
          ReachEdge(g, n, y);
        }
      }
    }
  }

  /** The same about the lists of a second search. */
  lemma EvictionSound<T(!new)>(g: Graph<T>, comps: seq<seq<T>>, i: nat, n: T, cut: set<T>, inverted: set<T>,
                               again: seq<seq<T>>)
    requires SccsOf(g, comps) && i < |comps| && n in comps[i] && n in g && !Edge(g, n, n)
    requires forall y :: y in inverted ==> y in g[n] && y in comps[i]
    requires SccsOf(Evicted(g, n, cut, inverted), again)
    ensures [n] in again <==> (forall y :: y in g[n] && y in comps[i] ==> y in cut + inverted)
  {
    hide LeavesFirst;
    var h := Evicted(g, n, cut, inverted);
    forall y ensures y in comps[i] <==> Mutual(g, n, y) {
      ClassOf(g, comps, i, n, y);
    }
    EvictedIff(g, n, cut, inverted);
    assert forall y :: y in g[n] <==> Edge(g, n, y);
    assert n in Members(again);
    var j := MembersAt(again, n);
    if [n] in again {
      var k :| 0 <= k < |again| && again[k] == [n];
      assert n in again[k] && k == j;
      forall x | Mutual(h, n, x) ensures x == n {
        ClassOf(h, again, j, n, x);
      }
    }
    forall x ensures x in again[j] <==> Mutual(h, n, x) {
      ClassOf(h, again, j, n, x);
    }
    if forall x :: Mutual(h, n, x) ==> x == n {
      OnlyMember(again[j], n);
      assert again[j] in again;
    }
  }

  lemma EvictedNodes<T(!new)>(g: Graph<T>, n: T, cut: set<T>, inverted: set<T>)
    requires Nodes(g) == g.Keys && n in g
    ensures Nodes(Evicted(g, n, cut, inverted)) == g.Keys
  {
    RepairedNodes(g, EdgesOf(n, cut), EdgesOf(n, inverted));
  }

  lemma OutsideEviction<T(!new)>(g: Graph<T>, h: Graph<T>, comps: seq<seq<T>>, i: nat, n: T, u: T, v: T)
    requires SccsOf(g, comps) && i < |comps| && n in comps[i] && u !in comps[i]
    requires Within(h, g) && forall x, y :: x != n && Edge(g, x, y) ==> Edge(h, x, y)
    ensures Mutual(h, u, v) <==> Mutual(g, u, v)
  {
    var s := Elems(comps[i]);
    forall x, y | x in s ensures y in s <==> Mutual(g, x, y) {
      ClassOf(g, comps, i, x, y);
    }
    OtherClassesStay(g, h, s, u, v);
  }

  /** What becomes of the rest: the class of `n` may break up but never grows, and every other list
      comes out with the same members. */
  lemma EvictionLocal<T(!new)>(g: Graph<T>, comps: seq<seq<T>>, i: nat, n: T, cut: set<T>, inverted: set<T>,
                               again: seq<seq<T>>, k: nat) returns (j: nat)
    requires SccsOf(g, comps) && i < |comps| && n in comps[i] && n in g && !Edge(g, n, n)
    requires forall y :: y in inverted ==> y in g[n] && y in comps[i]
    requires Nodes(g) == g.Keys && SccsOf(Evicted(g, n, cut, inverted), again) && k < |again|
    ensures j < |comps| && Elems(again[k]) <= Elems(comps[j])
    ensures j != i ==> Elems(again[k]) == Elems(comps[j])
  {
    hide LeavesFirst, Evicted, Within;
    var h := Evicted(g, n, cut, inverted);
    forall y | y in inverted ensures Edge(g, n, y) && Mutual(g, n, y) {
      ClassOf(g, comps, i, n, y);
    }
    EvictedEdges(g, n, cut, inverted);
    assert Nodes(h) == g.Keys by { EvictedNodes(g, n, cut, inverted); }
    j := ListsShrink(g, comps, h, again, k);
    var u := again[k][0];
    assert u in Elems(again[k]) && u in comps[j];
    if j != i {
      forall v ensures v in again[k] <==> v in comps[j] {
        ClassOf(h, again, k, u, v);
        ClassOf(g, comps, j, u, v);
        OutsideEviction(g, h, comps, i, n, u, v);
      }
    }
  }
}
