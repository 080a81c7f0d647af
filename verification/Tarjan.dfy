/** The recursive strongly-connected-components search with its mutable stack, index and
    lowlink tables. The invariant is stated on a view of those tables as sets. */
module Tarjan {
  import opened Digraph
  import opened Components

  datatype View<T> = View(counter: nat, index: map<T, nat>, stack: set<T>, emitted: set<T>)
  {
    function Idx(x: T): nat {
      if x in index then index[x] else 0
    }
  }

  /** The indexed nodes are those on the stack together with those already emitted. */
  ghost predicate Tables<T(!new)>(g: Graph<T>, s: View<T>, active: set<T>) {
    && s.index.Keys == s.stack + s.emitted
    && s.stack !! s.emitted
    && s.index.Keys <= Nodes(g)
    && active <= s.stack
    && (forall v :: v in s.index ==> s.Idx(v) < s.counter)
  }

  /** An indexed node that is no longer being expanded has only indexed successors. */
  ghost predicate Expanded<T(!new)>(g: Graph<T>, s: View<T>, active: set<T>) {
    forall u, w :: u in s.index && u !in active && Edge(g, u, w) ==> w in s.index
  }

  ghost predicate ClimbsTo<T(!new)>(g: Graph<T>, s: View<T>, active: set<T>, y: T) {
    exists x :: x in active && s.Idx(x) <= s.Idx(y) && Reach(g, y, x)
  }

  /** Each stack node climbs to an active node with no larger index. */
  ghost predicate Climbs<T(!new)>(g: Graph<T>, s: View<T>, active: set<T>) {
    forall y {:trigger ClimbsTo(g, s, active, y)} :: y in s.stack ==> ClimbsTo(g, s, active, y)
  }

  /** Each active node reaches every stack node with no smaller index. */
  ghost predicate Descends<T(!new)>(g: Graph<T>, s: View<T>, active: set<T>) {
    forall x, y :: x in active && y in s.stack && s.Idx(x) <= s.Idx(y) ==> Reach(g, x, y)
  }

  ghost predicate Inv<T(!new)>(g: Graph<T>, s: View<T>, active: set<T>) {
    && Tables(g, s, active)
    && Expanded(g, s, active)
    && Climbs(g, s, active)
    && Descends(g, s, active)
    && Closed(g, s.emitted)
  }

  ghost predicate Later<T(!new)>(s: View<T>, t: View<T>) {
    && s.counter <= t.counter
    && s.stack <= t.stack
    && s.emitted <= t.emitted
    && (forall v :: v in s.index ==> v in t.index && t.Idx(v) == s.Idx(v))
    && (forall v :: v in t.index && v !in s.index ==> s.counter <= t.Idx(v))
  }

  /** A lowlink below everything new names a node of the old stack that `v` reaches. */
  ghost predicate LowSound<T(!new)>(g: Graph<T>, s: View<T>, low: nat, v: T) {
    low < s.counter ==> exists z :: z in s.stack && s.Idx(z) == low && Reach(g, v, z)
  }

  /** The lowlink is at most the index of every old stack node that an edge from `y` leads to. */
  ghost predicate LowCovers<T(!new)>(g: Graph<T>, s: View<T>, low: nat, y: T, except: set<T>) {
    forall z :: z in s.stack && z !in except && Edge(g, y, z) ==> low <= s.Idx(z)
  }

  /** What expanding `v` from `s` has achieved in `t`, with lowlink `low` for `v`. */
  ghost predicate Explored<T(!new)>(g: Graph<T>, s: View<T>, t: View<T>, v: T, low: nat) {
    && Later(s, t)
    && v in t.index
    && LowSound(g, s, low, v)
    && forall y :: y in t.stack && y !in s.stack ==> LowCovers(g, s, low, y, {})
  }

  /** The same while `todo` are the successors of `v` still to be looked at. */
  ghost predicate Exploring<T(!new)>(g: Graph<T>, s: View<T>, t: View<T>, v: T, low: nat, todo: set<T>) {
    && Later(s, t)
    && v in t.stack && t.Idx(v) == s.counter
    && low <= s.counter
    && LowSound(g, s, low, v)
    && (forall y :: y in t.stack && y !in s.stack && y != v ==> LowCovers(g, s, low, y, {}))
    && LowCovers(g, s, low, v, todo)
    && (forall w :: w in todo ==> Edge(g, v, w))
    && (forall w :: Edge(g, v, w) && w !in todo ==> w in t.index)
  }

  function Min(a: nat, b: nat): nat {
    if a < b then a else b
  }

  function Push<T(==)>(s: View<T>, v: T): View<T> {
    View(s.counter + 1, s.index[v := s.counter], s.stack + {v}, s.emitted)
  }

  lemma PushClimbs<T(!new)>(g: Graph<T>, s: View<T>, active: set<T>, v: T)
    requires Tables(g, s, active) && Climbs(g, s, active) && v !in s.index
    ensures Climbs(g, Push(s, v), active + {v})
  {
    var t := Push(s, v);
    forall y | y in t.stack ensures ClimbsTo(g, t, active + {v}, y) {
      if y in s.stack {
        assert ClimbsTo(g, s, active, y);
        var x :| x in active && s.Idx(x) <= s.Idx(y) && Reach(g, y, x);
        assert x in active + {v} && t.Idx(x) <= t.Idx(y);
      } else {
        ReachRefl(g, v);
        assert v in active + {v};
      }
    }
  }

  lemma PushDescends<T(!new)>(g: Graph<T>, s: View<T>, active: set<T>, v: T)
    requires Tables(g, s, active) && Descends(g, s, active) && v !in s.index
    requires forall x :: x in active ==> Reach(g, x, v)
    ensures Descends(g, Push(s, v), active + {v})
  {
    var t := Push(s, v);
    ReachRefl(g, v);
    forall x, y | x in active + {v} && y in t.stack && t.Idx(x) <= t.Idx(y) ensures Reach(g, x, y) {
      assert y in s.stack ==> s.Idx(y) < s.counter;
    }
  }

  lemma PushKeeps<T(!new)>(g: Graph<T>, s: View<T>, active: set<T>, v: T)
    requires Inv(g, s, active) && v in Nodes(g) && v !in s.index
    requires forall x :: x in active ==> Reach(g, x, v)
    ensures Inv(g, Push(s, v), active + {v})
  {
    PushClimbs(g, s, active, v);
    PushDescends(g, s, active, v);
    assert Push(s, v).index.Keys == s.index.Keys + {v};
  }

  lemma PushExplores<T(!new)>(g: Graph<T>, s: View<T>, active: set<T>, v: T)
    requires Inv(g, s, active) && v !in s.index
    ensures Exploring(g, s, Push(s, v), v, s.counter, Succ(g, v))
  {
    forall w ensures w in Succ(g, v) <==> Edge(g, v, w) {}
  }

  /** A node indexed before `v` and still on the stack was on the stack before `v`. */
  lemma OldOnStack<T(!new)>(g: Graph<T>, s: View<T>, t: View<T>, a: set<T>, b: set<T>, z: T)
    requires Tables(g, s, a) && Tables(g, t, b) && Later(s, t)
    requires z in t.stack && t.Idx(z) < s.counter
    ensures z in s.stack && s.Idx(z) == t.Idx(z)
  {
    assert z in t.index;
    assert z in s.index;
  }

  /** A successor that is already on the stack. */
  lemma StackEdge<T(!new)>(g: Graph<T>, s: View<T>, t: View<T>, active: set<T>, v: T, low: nat, todo: set<T>, w: T)
    requires Inv(g, s, active)
    requires Inv(g, t, active + {v}) && Exploring(g, s, t, v, low, todo)
    requires w in todo && w in t.stack
    ensures Exploring(g, s, t, v, Min(low, t.Idx(w)), todo - {w})
  {
    assert Edge(g, v, w);
    ReachEdge(g, v, w);
    if t.Idx(w) < s.counter {
      OldOnStack(g, s, t, active, active + {v}, w);
    }
    var next := Min(low, t.Idx(w));
    forall y | y in t.stack && y !in s.stack && y != v ensures LowCovers(g, s, next, y, {}) {
      assert LowCovers(g, s, low, y, {});
    }
  }

  /** A successor that is already in an emitted component. */
  lemma EmittedEdge<T(!new)>(g: Graph<T>, s: View<T>, t: View<T>, active: set<T>, v: T, low: nat, todo: set<T>, w: T)
    requires Inv(g, s, active)
    requires Inv(g, t, active + {v}) && Exploring(g, s, t, v, low, todo)
    requires w in todo && w in t.index && w !in t.stack
    ensures Exploring(g, s, t, v, low, todo - {w})
  {
  }

  lemma LaterTrans<T(!new)>(r: View<T>, s: View<T>, t: View<T>)
    requires Later(r, s) && Later(s, t)
    ensures Later(r, t)
  {
  }

  /** A successor that was expanded recursively. */
  lemma TreeEdge<T(!new)>(g: Graph<T>, s: View<T>, t: View<T>, r: View<T>, active: set<T>, v: T,
                          low: nat, todo: set<T>, w: T, lowW: nat)
    requires Inv(g, s, active)
    requires Inv(g, t, active + {v}) && Exploring(g, s, t, v, low, todo)
    requires w in todo && w !in t.index
    requires Inv(g, r, active + {v}) && Explored(g, t, r, w, lowW)
    ensures Exploring(g, s, r, v, Min(low, lowW), todo - {w})
  {
    var next := Min(low, lowW);
    assert Edge(g, v, w);
    ReachEdge(g, v, w);
    LaterTrans(s, t, r);
    assert LowSound(g, s, next, v) by {
      if lowW < low {
        var z :| z in t.stack && t.Idx(z) == lowW && Reach(g, w, z);
        ReachTrans(g, v, w, z);
        OldOnStack(g, s, t, active, active + {v}, z);
      }
    }
    forall y | y in r.stack && y !in s.stack && y != v ensures LowCovers(g, s, next, y, {}) {
      if y in t.stack {
        assert LowCovers(g, s, low, y, {});
      } else {
        assert LowCovers(g, t, lowW, y, {});
      }
    }
  }

  /** A non-root climbs, through its lowlink, to an active node strictly below it. */
  lemma LowClimbs<T(!new)>(g: Graph<T>, s: View<T>, active: set<T>, v: T, low: nat) returns (x: T)
    requires Tables(g, s, active) && Climbs(g, s, active)
    requires LowSound(g, s, low, v) && low < s.counter
    ensures x in active && s.Idx(x) <= low && Reach(g, v, x)
  {
    var z :| z in s.stack && s.Idx(z) == low && Reach(g, v, z);
    assert ClimbsTo(g, s, active, z);
    x :| x in active && s.Idx(x) <= s.Idx(z) && Reach(g, z, x);
    ReachTrans(g, v, z, x);
  }

  lemma StayClimbs<T(!new)>(g: Graph<T>, t: View<T>, active: set<T>, v: T, x0: T, y: T)
    requires ClimbsTo(g, t, active + {v}, y)
    requires x0 in active && t.Idx(x0) <= t.Idx(v) && Reach(g, v, x0)
    ensures ClimbsTo(g, t, active, y)
  {
    var x :| x in active + {v} && t.Idx(x) <= t.Idx(y) && Reach(g, y, x);
    if x == v {
      ReachTrans(g, y, v, x0);
    }
  }

  lemma StayClimbsAll<T(!new)>(g: Graph<T>, t: View<T>, active: set<T>, v: T, x0: T)
    requires Climbs(g, t, active + {v})
    requires x0 in active && t.Idx(x0) <= t.Idx(v) && Reach(g, v, x0)
    ensures Climbs(g, t, active)
  {
    forall y | y in t.stack ensures ClimbsTo(g, t, active, y) {
      assert ClimbsTo(g, t, active + {v}, y);
      StayClimbs(g, t, active, v, x0, y);
    }
  }

  /** `v` is not a root: it stays on the stack, no longer active. */
  lemma StayKeeps<T(!new)>(g: Graph<T>, s: View<T>, t: View<T>, active: set<T>, v: T, low: nat)
    requires Inv(g, s, active) && v !in s.index
    requires Inv(g, t, active + {v}) && Exploring(g, s, t, v, low, {})
    requires low < s.counter
    ensures Inv(g, t, active) && Explored(g, s, t, v, low)
  {
    var x0 := LowClimbs(g, s, active, v, low);
    assert x0 in s.index;
    StayClimbsAll(g, t, active, v, x0);
  }

  /** What lies on the stack from a root `v` up sends no edge to what lies below. */
  lemma TopClosed<T(!new)>(g: Graph<T>, s: View<T>, t: View<T>, active: set<T>, v: T)
    requires Inv(g, s, active) && v !in s.index
    requires Inv(g, t, active + {v}) && Exploring(g, s, t, v, s.counter, {})
    ensures Closed(g, (t.stack - s.stack) + t.emitted)
  {
    var top := t.stack - s.stack;
    forall u, w | u in top && Edge(g, u, w) ensures w in top + t.emitted {
      assert w in t.index;
      assert LowCovers(g, s, s.counter, u, {});
      assert s.Idx(w) < s.counter || w !in s.stack;
    }
  }

  /** Everything on the stack from a root `v` up is mutually reachable with `v`. */
  lemma TopMutual<T(!new)>(g: Graph<T>, s: View<T>, t: View<T>, active: set<T>, v: T, y: T)
    requires Inv(g, s, active) && v !in s.index
    requires Inv(g, t, active + {v}) && Exploring(g, s, t, v, s.counter, {})
    requires y in t.stack - s.stack
    ensures Mutual(g, v, y)
  {
    TopClosed(g, s, t, active, v);
    assert y in t.index;
    assert y !in s.index;
    assert ClimbsTo(g, t, active + {v}, y);
    var x :| x in active + {v} && t.Idx(x) <= t.Idx(y) && Reach(g, y, x);
    ClosedReach(g, (t.stack - s.stack) + t.emitted, y, x);
  }

  /** ... so it is exactly the class of `v`. */
  lemma TopIsClass<T(!new)>(g: Graph<T>, s: View<T>, t: View<T>, active: set<T>, v: T, u: T, w: T)
    requires Inv(g, s, active) && v !in s.index
    requires Inv(g, t, active + {v}) && Exploring(g, s, t, v, s.counter, {})
    requires u in t.stack - s.stack
    ensures w in t.stack - s.stack <==> Mutual(g, u, w)
  {
    var top := t.stack - s.stack;
    TopMutual(g, s, t, active, v, u);
    if w in top {
      TopMutual(g, s, t, active, v, w);
      MutualTrans(g, u, v, w);
    } else if Mutual(g, u, w) {
      TopClosed(g, s, t, active, v);
      ClosedReach(g, top + t.emitted, u, w);
      ClosedReach(g, t.emitted, w, u);
      assert false;
    }
  }

  function Emitted<T(==)>(s: View<T>, t: View<T>): View<T> {
    t.(stack := s.stack, emitted := t.emitted + (t.stack - s.stack))
  }

  lemma EmitClimbs<T(!new)>(g: Graph<T>, s: View<T>, t: View<T>, active: set<T>)
    requires Tables(g, s, active) && Climbs(g, s, active) && Later(s, t)
    ensures Climbs(g, Emitted(s, t), active)
  {
    var r := Emitted(s, t);
    forall y | y in r.stack ensures ClimbsTo(g, r, active, y) {
      assert ClimbsTo(g, s, active, y);
      var x :| x in active && s.Idx(x) <= s.Idx(y) && Reach(g, y, x);
      assert x in s.index && y in s.index;
      assert r.Idx(x) <= r.Idx(y);
    }
  }

  /** `v` is a root: everything from it up leaves the stack as one component. */
  lemma EmitKeeps<T(!new)>(g: Graph<T>, s: View<T>, t: View<T>, active: set<T>, v: T)
    requires Inv(g, s, active) && v !in s.index
    requires Inv(g, t, active + {v}) && Exploring(g, s, t, v, s.counter, {})
    ensures Inv(g, Emitted(s, t), active)
    ensures Explored(g, s, Emitted(s, t), v, s.counter)
  {
    var r := Emitted(s, t);
    TopClosed(g, s, t, active, v);
    assert r.emitted == (t.stack - s.stack) + t.emitted;
    EmitClimbs(g, s, t, active);
    assert Descends(g, r, active) by {
      forall x, y | x in active && y in r.stack && r.Idx(x) <= r.Idx(y) ensures Reach(g, x, y) {
        assert x in active + {v} && y in t.stack && t.Idx(x) <= t.Idx(y);
      }
    }
  }

  /** Stack order is index order. */
  ghost predicate Ordered<T(!new)>(stack: seq<T>, s: View<T>) {
    forall i, j :: 0 <= i < j < |stack| ==> s.Idx(stack[i]) < s.Idx(stack[j])
  }

  lemma OrderedPush<T(!new)>(g: Graph<T>, s: View<T>, stack: seq<T>, active: set<T>, v: T)
    requires Inv(g, s, active) && s.stack == Elems(stack) && Ordered(stack, s) && v !in s.index
    ensures Ordered(stack + [v], Push(s, v))
    ensures Push(s, v).stack == Elems(stack + [v])
  {
    assert forall x :: x in stack ==> x in s.stack;
    assert forall x :: x in Elems(stack + [v]) <==> x in Elems(stack) || x == v;
  }

  /** A successor still to be looked at can be expanded: it is a node and all active nodes reach it. */
  lemma Reachable<T(!new)>(g: Graph<T>, s: View<T>, t: View<T>, active: set<T>, v: T, low: nat, todo: set<T>, w: T)
    requires Inv(g, s, active)
    requires Inv(g, t, active + {v}) && Exploring(g, s, t, v, low, todo) && w in todo
    ensures w in Nodes(g)
    ensures forall x :: x in active + {v} ==> Reach(g, x, w)
  {
    assert Edge(g, v, w);
    ReachEdge(g, v, w);
    forall x | x in active ensures Reach(g, x, w) {
      assert x in s.index && x in active + {v};
      ReachTrans(g, x, v, w);
    }
  }

  lemma RootTest<T(!new)>(g: Graph<T>, s: View<T>, t: View<T>, v: T, low: nat, todo: set<T>)
    requires Exploring(g, s, t, v, low, todo)
    ensures t.Idx(v) == s.counter && low <= s.counter
  {
  }

  lemma EmitExact<T(!new)>(g: Graph<T>, s: View<T>, t: View<T>, active: set<T>, v: T, comps: seq<seq<T>>, comp: seq<T>)
    requires Inv(g, s, active) && v !in s.index
    requires Inv(g, t, active + {v}) && Exploring(g, s, t, v, s.counter, {})
    requires Exact(g, comps) && t.emitted == Members(comps)
    requires Distinct(comp) && forall x :: x in comp <==> x in t.stack - s.stack
    ensures Exact(g, comps + [comp])
  {
    forall u, x | u in comp ensures x in comp <==> Mutual(g, u, x) {
      TopIsClass(g, s, t, active, v, u, x);
    }
    TopClosed(g, s, t, active, v);
    assert v in t.stack - s.stack;
    ExactSnoc(g, comps, comp);
  }

  class Search<T(==,!new)> {
    const g: Graph<T>
    var indexCounter: nat
    var stack: seq<T>
    var onStack: map<T, bool>
    var index: map<T, nat>
    var lowlink: map<T, nat>
    var result: seq<seq<T>>

    ghost function Seen(): View<T>
      reads this
    {
      View(indexCounter, index, Elems(stack), Members(result))
    }

    ghost predicate FlagsAgree()
      reads this
    {
      forall x :: x in stack <==> x in onStack && onStack[x]
    }

    /** `active` are the nodes whose expansion has begun and not ended. */
    ghost predicate Valid(active: set<T>)
      reads this
    {
      && Inv(g, Seen(), active)
      && FlagsAgree()
      && Ordered(stack, Seen())
      && lowlink.Keys == index.Keys
      && Exact(g, result)
    }

    constructor (graph: Graph<T>)
      ensures g == graph && Valid({}) && stack == [] && index == map[] && result == []
    {
      g := graph;
      indexCounter, stack, onStack, index, lowlink, result := 0, [], map[], map[], map[], [];
    }

    /** Numbers `v` and puts it on top of the stack. */
    method Enter(v: T, ghost active: set<T>)
      requires Valid(active) && v in Nodes(g) && v !in index
      requires forall x :: x in active ==> Reach(g, x, v)
      modifies this
      ensures Valid(active + {v}) && Seen() == Push(old(Seen()), v)
      ensures lowlink == old(lowlink)[v := old(indexCounter)]
      ensures stack == old(stack) + [v] && result == old(result)
      ensures Exploring(g, old(Seen()), Seen(), v, lowlink[v], Succ(g, v))
    {
      hide Inv, Exploring, Exact, Ordered, Reach, Members, Elems, Nodes, Edge;
      ghost var s := Seen();
      PushKeeps(g, s, active, v);
      PushExplores(g, s, active, v);
      OrderedPush(g, s, stack, active, v);
      index := index[v := indexCounter];
      lowlink := lowlink[v := indexCounter];
      indexCounter := indexCounter + 1;
      stack := stack + [v];
      onStack := onStack[v := true];
      assert Seen() == Push(s, v);
    }

    static lemma PopOne(full: seq<T>, k: nat, t: View<T>)
      requires k < |full| && Ordered(full, t)
      ensures full[k..] == [full[k]] + full[k + 1..]
      ensures full[k] !in full[k + 1..] && full[k] !in full[..k]
    {
    }

    static lemma Split(full: seq<T>, below: seq<T>, t: View<T>)
      requires below <= full && Ordered(full, t)
      ensures forall x :: x in full[|below|..] <==> x in Elems(full) - Elems(below)
    {
      assert full == below + full[|below|..];
      forall i, j | 0 <= i < |below| <= j < |full| ensures below[i] != full[j] {
        assert full[i] == below[i];
      }
    }

    /** Pops nodes until `v` has been popped. */
    method PopTo(v: T, ghost below: seq<T>, ghost t: View<T>) returns (comp: seq<T>)
      requires FlagsAgree() && Ordered(stack, t) && below + [v] <= stack
      modifies `stack, `onStack
      ensures FlagsAgree() && stack == below
      ensures Distinct(comp)
      ensures forall x :: x in comp <==> x in Elems(old(stack)) - Elems(below)
    {
      ghost var full := stack;
      comp := [];
      assert full[|below|] == v;
      while true
        invariant |below| < |stack| <= |full| && stack == full[..|stack|]
        invariant FlagsAgree()
        invariant Distinct(comp)
        invariant forall x :: x in comp <==> x in full[|stack|..]
        decreases |stack|
      {
        var w := stack[|stack| - 1];
        PopOne(full, |stack| - 1, t);
        stack := stack[..|stack| - 1];
        onStack := onStack[w := false];
        comp := comp + [w];
        if w == v {
          break;
        }
      }
      PopOne(full, |below|, t);
      Split(full, below, t);
    }

    /** Turns the stack from `v` up into a new component. */
    method Emit(v: T, ghost s: View<T>, ghost below: seq<T>, ghost active: set<T>)
      requires Inv(g, s, active) && v !in s.index && s.stack == Elems(below)
      requires Valid(active + {v}) && Exploring(g, s, Seen(), v, s.counter, {})
      requires below + [v] <= stack
      modifies `stack, `onStack, `result
      ensures Valid(active) && Explored(g, s, Seen(), v, s.counter)
      ensures stack == below && old(result) <= result
    {
      hide Inv, Exploring, Explored, Exact, Reach, Members, Nodes, Edge;
      ghost var t := Seen();
      assert stack[|below|] == v;
      var comp := PopTo(v, below, t);
      result := result + [comp];
      EmitExact(g, s, t, active, v, old(result), comp);
      EmitKeeps(g, s, t, active, v);
      MembersSnoc(old(result), comp);
      assert Members(result) == t.emitted + (t.stack - s.stack);
      assert Seen() == Emitted(s, t);
      assert Ordered(stack, Seen()) by {
        assert forall i :: 0 <= i < |stack| ==> stack[i] == old(stack)[i];
      }
    }

    /** Expands `v` and everything unindexed it leads to. */
    method StrongConnect(v: T, ghost active: set<T>)
      requires Valid(active) && v in Nodes(g) && v !in index
      requires forall x :: x in active ==> Reach(g, x, v)
      modifies this
      ensures Valid(active)
      ensures v in lowlink && Explored(g, old(Seen()), Seen(), v, lowlink[v])
      ensures old(stack) <= stack && old(result) <= result && old(index).Keys <= index.Keys
      ensures forall x :: x in old(lowlink) ==> x in lowlink && lowlink[x] == old(lowlink[x])
      decreases Nodes(g) - index.Keys, 0
    {
      hide Inv, Exploring, Explored, Exact, Ordered, Reach, Members, Elems, Nodes, Edge;
      ghost var s := Seen();
      ghost var below := active + {v};
      Enter(v, active);
      var todo := Succ(g, v);
      while todo != {}
        invariant Valid(below) && v in lowlink
        invariant Exploring(g, s, Seen(), v, lowlink[v], todo)
        invariant old(stack) + [v] <= stack && old(result) <= result
        invariant forall x :: x in old(lowlink) ==> x in lowlink && lowlink[x] == old(lowlink[x])
        invariant old(index).Keys + {v} <= index.Keys
        decreases todo
      {
        var w :| w in todo;
        Follow(v, w, s, todo, active);
        todo := todo - {w};
      }
      RootTest(g, s, Seen(), v, lowlink[v], todo);
      if lowlink[v] == index[v] {
        Emit(v, s, old(stack), active);
      } else {
        StayKeeps(g, s, Seen(), active, v, lowlink[v]);
      }
    }

    /** Looks at one successor `w` of `v` and brings the lowlink of `v` up to date. */
    method Follow(v: T, w: T, ghost s: View<T>, ghost todo: set<T>, ghost active: set<T>)
      requires Inv(g, s, active) && v !in s.index
      requires Valid(active + {v}) && v in lowlink && w in todo
      requires Exploring(g, s, Seen(), v, lowlink[v], todo)
      modifies this
      ensures Valid(active + {v}) && v in lowlink
      ensures Exploring(g, s, Seen(), v, lowlink[v], todo - {w})
      ensures old(stack) <= stack && old(result) <= result && old(index).Keys <= index.Keys
      ensures forall x :: x in old(lowlink) && x != v ==> x in lowlink && lowlink[x] == old(lowlink[x])
      decreases Nodes(g) - index.Keys, 1
    {
      hide Inv, Exploring, Explored, Exact, Ordered, Reach, Members, Nodes, Edge;
      ghost var t := Seen();
      ghost var low := lowlink[v];
      Reachable(g, s, t, active, v, low, todo, w);
      if w !in index {
        StrongConnect(w, active + {v});
        TreeEdge(g, s, t, Seen(), active, v, low, todo, w, lowlink[w]);
        lowlink := lowlink[v := Min(lowlink[v], lowlink[w])];
      } else if w in onStack && onStack[w] {
        StackEdge(g, s, t, active, v, low, todo, w);
        lowlink := lowlink[v := Min(lowlink[v], index[w])];
      } else {
        EmittedEdge(g, s, t, active, v, low, todo, w);
      }
    }
  }

  /** Expands every node that has an entry in the graph, in any order. */
  method StronglyConnectedComponents<T(==,!new)>(g: Graph<T>) returns (result: seq<seq<T>>)
    ensures SccsOf(g, result)
  {
    var search := new Search(g);
    var todo := g.Keys;
    while todo != {}
      invariant search.g == g && search.Valid({}) && search.stack == []
      invariant g.Keys - search.index.Keys <= todo <= g.Keys
      decreases todo
    {
      var v :| v in todo;
      if v !in search.index {
        search.StrongConnect(v, {});
        assert search.stack == [] by {
          assert search.stack != [] ==> ClimbsTo(g, search.Seen(), {}, search.stack[0]) by {
            assert search.stack != [] ==> search.stack[0] in Elems(search.stack);
          }
        }
      }
      todo := todo - {v};
    }
    result := search.result;
    forall v | v in Nodes(g) ensures v in Members(result) {
      if v !in g.Keys {
        var u :| u in g && v in g[u];
        assert Edge(g, u, v);
      }
    }
  }
}
