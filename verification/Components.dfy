/** What a list of strongly connected components promises, independently of how it is computed. */
module Components {
  import opened Digraph

  ghost predicate Distinct<T(!new)>(s: seq<T>) {
    forall i, j :: 0 <= i < j < |s| ==> s[i] != s[j]
  }

  ghost function Elems<T(!new)>(s: seq<T>): set<T> {
    set x | x in s
  }

  ghost function Members<T(!new)>(comps: seq<seq<T>>): set<T> {
    set i, x | 0 <= i < |comps| && x in comps[i] :: x
  }

  /** Non-empty duplicate-free lists, no two of them sharing a node. */
  ghost predicate DisjointLists<T(!new)>(comps: seq<seq<T>>) {
    && (forall i :: 0 <= i < |comps| ==> comps[i] != [] && Distinct(comps[i]))
    && (forall i, j, x :: 0 <= i < j < |comps| && x in comps[i] ==> x !in comps[j])
  }

  /** Every list is exactly the class of nodes that reach, and are reached from, its members. */
  ghost predicate ExactClasses<T(!new)>(g: Graph<T>, comps: seq<seq<T>>) {
    forall i, u, v :: 0 <= i < |comps| && u in comps[i] ==> (v in comps[i] <==> Mutual(g, u, v))
  }

  /** Leaves first: no edge leads from a list to a later one. */
  ghost predicate LeavesFirst<T(!new)>(g: Graph<T>, comps: seq<seq<T>>) {
    forall i, u, v :: 0 <= i < |comps| && u in comps[i] && Edge(g, u, v) ==> v in Members(comps[..i + 1])
  }

  ghost predicate Exact<T(!new)>(g: Graph<T>, comps: seq<seq<T>>) {
    DisjointLists(comps) && ExactClasses(g, comps) && LeavesFirst(g, comps)
  }

  /** The full result: the lists also cover the graph. */
  ghost predicate SccsOf<T(!new)>(g: Graph<T>, comps: seq<seq<T>>) {
    Exact(g, comps) && Members(comps) == Nodes(g)
  }

  lemma MembersAt<T(!new)>(comps: seq<seq<T>>, x: T) returns (i: nat)
    requires x in Members(comps)
    ensures i < |comps| && x in comps[i]
  {
    i :| 0 <= i < |comps| && x in comps[i];
  }

  lemma MembersSnoc<T(!new)>(comps: seq<seq<T>>, c: seq<T>)
    ensures forall x :: x in Members(comps + [c]) <==> x in Members(comps) || x in c
  {
    var all := comps + [c];
    forall x ensures x in Members(all) <==> x in Members(comps) || x in c {
      if x in Members(comps) {
        var i := MembersAt(comps, x);
        assert x in all[i];
      }
      if x in c {
        assert x in all[|comps|];
      }
    }
  }

  /** Emitting a class whose out-edges stay inside it or go to what is already emitted. */
  lemma ExactSnoc<T(!new)>(g: Graph<T>, comps: seq<seq<T>>, c: seq<T>)
    requires Exact(g, comps)
    requires c != [] && Distinct(c)
    requires forall x :: x in c ==> x !in Members(comps)
    requires forall u, v :: u in c ==> (v in c <==> Mutual(g, u, v))
    requires forall u, v :: u in c && Edge(g, u, v) ==> v in c || v in Members(comps)
    ensures Exact(g, comps + [c])
  {
    var all := comps + [c];
    MembersSnoc(comps, c);
    forall i, x | 0 <= i < |comps| && x in comps[i] ensures x !in c {
      assert x in Members(comps);
    }
    forall i, u, v | 0 <= i < |all| && u in all[i] && Edge(g, u, v) ensures v in Members(all[..i + 1]) {
      if i < |comps| {
        assert all[..i + 1] == comps[..i + 1];
      } else {
        assert all[..i + 1] == all;
      }
    }
  }

  lemma ClassOf<T(!new)>(g: Graph<T>, comps: seq<seq<T>>, i: nat, u: T, v: T)
    requires ExactClasses(g, comps) && i < |comps| && u in comps[i]
    ensures v in comps[i] <==> Mutual(g, u, v)
  {
  }

  /** For nodes of the graph, sharing a list and reaching each other are the same thing. */
  lemma SameListIffMutual<T(!new)>(g: Graph<T>, comps: seq<seq<T>>, u: T, v: T)
    requires SccsOf(g, comps) && u in Nodes(g) && v in Nodes(g)
    ensures (exists i :: 0 <= i < |comps| && u in comps[i] && v in comps[i]) <==> Mutual(g, u, v)
  {
    var i := MembersAt(comps, u);
    if Mutual(g, u, v) {
      assert u in comps[i] && v in comps[i];
    }
  }

  /** The classes do not depend on how they were found: two results have the same member sets. */
  lemma SccsUnique<T(!new)>(g: Graph<T>, a: seq<seq<T>>, b: seq<seq<T>>, i: nat) returns (j: nat)
    requires SccsOf(g, a) && SccsOf(g, b) && i < |a|
    ensures j < |b| && Elems(a[i]) == Elems(b[j])
  {
    var u := a[i][0];
    assert u in a[i] && u in Members(a);
    j := MembersAt(b, u);
    forall v ensures v in a[i] <==> v in b[j] {
      ClassOf(g, a, i, u, v);
      ClassOf(g, b, j, u, v);
    }
  }
}
