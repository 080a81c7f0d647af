/** Collecting a process tree from a snapshot of parent pids, which need not be a tree. */
module ProcessTree {
  import opened Digraph
  import opened Components

  /** A process leads to the processes that name it as their parent. */
  ghost function ChildGraph<P(!new)>(ppidOf: map<P, P>): Graph<P> {
    map p | p in ppidOf.Values :: set c | c in ppidOf && ppidOf[c] == p
  }

  method ChildrenOf<P(==,!new)>(ppidOf: map<P, P>) returns (children: map<P, seq<P>>)
    ensures forall p, c :: (p in children && c in children[p]) <==> Edge(ChildGraph(ppidOf), p, c)
  {
    children := map[];
    var todo := ppidOf.Keys;
    while todo != {}
      invariant todo <= ppidOf.Keys
      invariant forall p, c :: (p in children && c in children[p]) <==> (c in ppidOf && c !in todo && ppidOf[c] == p)
      decreases todo
    {
      var pid :| pid in todo;
      var ppid := ppidOf[pid];
      ghost var before := children;
      children := children[ppid := (if ppid in children then children[ppid] else []) + [pid]];
      forall p, c ensures (p in children && c in children[p]) <==>
                     (c in ppidOf && c !in todo - {pid} && ppidOf[c] == p) {
        if p == ppid {
          assert c in children[p] <==> (p in before && c in before[p]) || c == pid;
        }
      }
      todo := todo - {pid};
    }
    forall p, c ensures (p in children && c in children[p]) <==> Edge(ChildGraph(ppidOf), p, c) {
      if c in ppidOf && ppidOf[c] == p {
        assert p in ppidOf.Values;
      }
    }
  }

  ghost predicate FromRoots<P(!new)>(g: Graph<P>, roots: seq<P>, pid: P) {
    exists r :: r in roots && Reach(g, r, pid)
  }

  // ----- the tree in terms of parents

  /** Each process is the parent of the one before it. */
  ghost predicate Ancestry<P(!new)>(ppidOf: map<P, P>, p: seq<P>) {
    p != [] && forall i :: 0 <= i < |p| - 1 ==> p[i] in ppidOf && ppidOf[p[i]] == p[i + 1]
  }

  /** Going from parent to parent, `pid` leads to `root`. */
  ghost predicate Below<P(!new)>(ppidOf: map<P, P>, pid: P, root: P) {
    exists p: seq<P> :: Ancestry(ppidOf, p) && p[0] == pid && p[|p| - 1] == root
  }

  lemma ChildEdge<P(!new)>(ppidOf: map<P, P>, p: P, c: P)
    ensures Edge(ChildGraph(ppidOf), p, c) <==> c in ppidOf && ppidOf[c] == p
  {
  }

  lemma {:induction false} AncestryReaches<P(!new)>(ppidOf: map<P, P>, p: seq<P>)
    requires Ancestry(ppidOf, p)
    ensures Reach(ChildGraph(ppidOf), p[|p| - 1], p[0])
  {
    var g := ChildGraph(ppidOf);
    if |p| == 1 {
      ReachRefl(g, p[0]);
    } else {
      AncestryReaches(ppidOf, p[1..]);
      ChildEdge(ppidOf, p[1], p[0]);
      ReachEdge(g, p[1], p[0]);
      ReachTrans(g, p[|p| - 1], p[1], p[0]);
    }
  }

  lemma {:induction false} WalkIsAncestry<P(!new)>(ppidOf: map<P, P>, root: P, q: seq<P>, pid: P) returns (p: seq<P>)
    requires Walk(ChildGraph(ppidOf), root, q, pid)
    ensures Ancestry(ppidOf, p) && p[0] == pid && p[|p| - 1] == root
  {
    if q == [] {
      p := [pid];
    } else {
      ChildEdge(ppidOf, root, q[0]);
      var rest := WalkIsAncestry(ppidOf, q[0], q[1..], pid);
      p := rest + [root];
      assert forall i :: 0 <= i < |rest| ==> p[i] == rest[i];
    }
  }

  lemma BelowIffReach<P(!new)>(ppidOf: map<P, P>, pid: P, root: P)
    ensures Below(ppidOf, pid, root) <==> Reach(ChildGraph(ppidOf), root, pid)
  {
    if Below(ppidOf, pid, root) {
      var p :| Ancestry(ppidOf, p) && p[0] == pid && p[|p| - 1] == root;
      AncestryReaches(ppidOf, p);
    }
    if Reach(ChildGraph(ppidOf), root, pid) {
      var q :| Walk(ChildGraph(ppidOf), root, q, pid);
      var p := WalkIsAncestry(ppidOf, root, q, pid);
    }
  }

  /** What descends from the roots is what has a root among its ancestors, or is one. */
  lemma FromRootsIffBelow<P(!new)>(ppidOf: map<P, P>, roots: seq<P>, pid: P)
    ensures FromRoots(ChildGraph(ppidOf), roots, pid) <==> exists r :: r in roots && Below(ppidOf, pid, r)
  {
    hide Below, ChildGraph, Reach;
    if FromRoots(ChildGraph(ppidOf), roots, pid) {
      var r :| r in roots && Reach(ChildGraph(ppidOf), r, pid);
      BelowIffReach(ppidOf, pid, r);
    }
    if r :| r in roots && Below(ppidOf, pid, r) {
      BelowIffReach(ppidOf, pid, r);
    }
  }

  // ----- collecting it

  lemma FromRootsStep<P(!new)>(g: Graph<P>, roots: seq<P>, p: P, c: P)
    requires FromRoots(g, roots, p) && Edge(g, p, c)
    ensures FromRoots(g, roots, c)
  {
    var r :| r in roots && Reach(g, r, p);
    ReachEdge(g, p, c);
    ReachTrans(g, r, p, c);
  }

  lemma RootFromRoots<P(!new)>(g: Graph<P>, roots: seq<P>, pid: P)
    requires pid in roots
    ensures FromRoots(g, roots, pid)
  {
    ReachRefl(g, pid);
  }

  lemma ChildIsPid<P(!new)>(ppidOf: map<P, P>, p: P, c: P)
    requires Edge(ChildGraph(ppidOf), p, c)
    ensures c in ppidOf
  {
  }

  lemma OnlySeen<P(!new)>(g: Graph<P>, roots: seq<P>, seen: set<P>, pid: P)
    requires FromRoots(g, roots, pid) && Closed(g, seen)
    requires forall r :: r in roots ==> r in seen
    ensures pid in seen
  {
    var r :| r in roots && Reach(g, r, pid);
    ClosedReach(g, seen, r, pid);
  }

  /** Exactly the roots and whatever they lead to. Terminates whatever the parent map looks like:
      a pass either marks a new pid or shortens the stack. */
  method CollectDescendants<P(==,!new)>(ppidOf: map<P, P>, roots: seq<P>) returns (seen: set<P>)
    ensures forall pid :: pid in seen <==> FromRoots(ChildGraph(ppidOf), roots, pid)
    ensures forall pid :: pid in seen <==> exists r :: r in roots && Below(ppidOf, pid, r)
  {
    ghost var g := ChildGraph(ppidOf);
    hide Edge, Reach, FromRoots, ChildGraph, Below;
    var children := ChildrenOf(ppidOf);
    seen := {};
    var stack := roots;
    ghost var universe := Elems(roots) + ppidOf.Keys;
    forall pid | pid in roots ensures FromRoots(g, roots, pid) {
      RootFromRoots(g, roots, pid);
    }
    while stack != []
      invariant seen <= universe
      invariant forall pid :: pid in stack ==> pid in universe && FromRoots(g, roots, pid)
      invariant forall pid :: pid in seen ==> FromRoots(g, roots, pid)
      invariant forall pid :: pid in roots ==> pid in seen || pid in stack
      invariant forall p, c :: p in seen && Edge(g, p, c) ==> c in seen || c in stack
      decreases universe - seen, |stack|
    {
      var pid := stack[|stack| - 1];
      ghost var before := stack;
      stack := stack[..|stack| - 1];
      assert before == stack + [pid];
      if pid !in seen {
        var next := if pid in children then children[pid] else [];
        forall c | c in next ensures c in universe && FromRoots(g, roots, c) {
          FromRootsStep(g, roots, pid, c);
          ChildIsPid(ppidOf, pid, c);
        }
        seen := seen + {pid};
        stack := stack + next;
      }
    }
    forall pid | FromRoots(g, roots, pid) ensures pid in seen {
      OnlySeen(g, roots, seen, pid);
    }
    forall pid ensures pid in seen <==> exists r :: r in roots && Below(ppidOf, pid, r) {
      FromRootsIffBelow(ppidOf, roots, pid);
    }
  }
}
