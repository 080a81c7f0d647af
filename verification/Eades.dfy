/** The greedy vertex ordering: sinks go to the right, sources to the left, and when neither is
    left a node of greatest out-weight minus in-weight goes to the left. A run is described by the
    sequence of its moves; what the order guarantees is proved for every legal run, so for every
    iteration order and every way of breaking ties. */
module Eades {
  import opened Digraph
  import opened Components
  import opened Orders
  import opened Sums

  /** For each node, its successors with the weight of the edge to them. */
  type Weights<T(==)> = map<T, map<T, nat>>

  predicate Arc<T(==)>(out: Weights<T>, u: T, v: T) {
    u in out && v in out[u]
  }

  function GraphOf<T(==)>(out: Weights<T>): Graph<T> {
    map u | u in out :: out[u].Keys
  }

  ghost function WeightOf<T(!new)>(out: Weights<T>): ((T, T)) -> int {
    (e: (T, T)) => if Arc(out, e.0, e.1) then out[e.0][e.1] else 0
  }

  ghost function Total<T(!new)>(out: Weights<T>, arcs: set<(T, T)>): int {
    Sum(arcs, WeightOf(out))
  }

  ghost function Arcs<T(!new)>(out: Weights<T>, s: set<T>): set<(T, T)> {
    set u, v | u in s && v in s && Arc(out, u, v) :: (u, v)
  }

  ghost function OutArcs<T(!new)>(out: Weights<T>, s: set<T>, n: T): set<(T, T)> {
    set v | v in s && Arc(out, n, v) :: (n, v)
  }

  ghost function InArcs<T(!new)>(out: Weights<T>, s: set<T>, n: T): set<(T, T)> {
    set u | u in s && Arc(out, u, n) :: (u, n)
  }

  /** The edges that point from a later to an earlier position. */
  ghost function BackArcs<T(!new)>(out: Weights<T>, order: seq<T>): set<(T, T)> {
    set u, v | u in order && v in order && Arc(out, u, v) && Before(order, v, u) :: (u, v)
  }

  ghost function Score<T(!new)>(out: Weights<T>, rem: set<T>, n: T): int {
    Total(out, OutArcs(out, rem, n)) - Total(out, InArcs(out, rem, n))
  }

  predicate IsSink<T(==)>(out: Weights<T>, rem: set<T>, n: T) {
    forall v :: v in rem ==> !Arc(out, n, v)
  }

  predicate IsSource<T(==)>(out: Weights<T>, rem: set<T>, n: T) {
    forall u :: u in rem ==> !Arc(out, u, n)
  }

  ghost predicate NoEnds<T(!new)>(out: Weights<T>, rem: set<T>) {
    && (forall x {:trigger IsSink(out, rem, x)} :: x in rem ==> !IsSink(out, rem, x))
    && (forall x {:trigger IsSource(out, rem, x)} :: x in rem ==> !IsSource(out, rem, x))
  }

  datatype Move<T> = Sink(node: T) | Source(node: T) | Pick(node: T)

  ghost predicate LegalMove<T(!new)>(out: Weights<T>, rem: set<T>, m: Move<T>) {
    && m.node in rem
    && match m
       case Sink(n) => IsSink(out, rem, n)
       case Source(n) => IsSource(out, rem, n)
       case Pick(n) =>
         && NoEnds(out, rem)
         && (forall x :: x in rem ==> Score(out, rem, x) <= Score(out, rem, n))
  }

  ghost predicate Legal<T(!new)>(out: Weights<T>, rem: set<T>, moves: seq<Move<T>>) {
    moves == [] || (LegalMove(out, rem, moves[0]) && Legal(out, rem - {moves[0].node}, moves[1..]))
  }

  ghost function After<T(!new)>(rem: set<T>, moves: seq<Move<T>>): set<T> {
    if moves == [] then rem else After(rem - {moves[0].node}, moves[1..])
  }

  ghost function Left<T(!new)>(moves: seq<Move<T>>): seq<T> {
    if moves == [] then [] else (if moves[0].Sink? then [] else [moves[0].node]) + Left(moves[1..])
  }

  ghost function Right<T(!new)>(moves: seq<Move<T>>): seq<T> {
    if moves == [] then [] else Right(moves[1..]) + (if moves[0].Sink? then [moves[0].node] else [])
  }

  ghost function OrderOf<T(!new)>(moves: seq<Move<T>>): seq<T> {
    Left(moves) + Right(moves)
  }

  lemma OrderStep<T(!new)>(moves: seq<Move<T>>)
    requires moves != []
    ensures OrderOf(moves) ==
            if moves[0].Sink? then OrderOf(moves[1..]) + [moves[0].node]
            else [moves[0].node] + OrderOf(moves[1..])
  {
  }

  lemma {:induction false} SnocLegal<T(!new)>(out: Weights<T>, rem: set<T>, moves: seq<Move<T>>, m: Move<T>)
    requires Legal(out, rem, moves) && LegalMove(out, After(rem, moves), m)
    ensures Legal(out, rem, moves + [m]) && After(rem, moves + [m]) == After(rem, moves) - {m.node}
  {
    hide LegalMove;
    if moves == [] {
      assert [m][1..] == [];
      assert [] + [m] == [m];
    } else {
      SnocLegal(out, rem - {moves[0].node}, moves[1..], m);
      assert (moves + [m])[1..] == moves[1..] + [m];
    }
  }

  lemma {:induction false} SnocLeft<T(!new)>(moves: seq<Move<T>>, m: Move<T>)
    ensures Left(moves + [m]) == Left(moves) + if m.Sink? then [] else [m.node]
  {
    if moves == [] {
      assert [m][1..] == [];
    } else {
      SnocLeft(moves[1..], m);
      assert (moves + [m])[1..] == moves[1..] + [m];
    }
  }

  lemma {:induction false} SnocRight<T(!new)>(moves: seq<Move<T>>, m: Move<T>)
    ensures Right(moves + [m]) == (if m.Sink? then [m.node] else []) + Right(moves)
  {
    if moves == [] {
      assert [m][1..] == [];
    } else {
      SnocRight(moves[1..], m);
      assert (moves + [m])[1..] == moves[1..] + [m];
    }
  }

  lemma Snoc<T(!new)>(out: Weights<T>, rem: set<T>, moves: seq<Move<T>>, m: Move<T>)
    requires Legal(out, rem, moves) && LegalMove(out, After(rem, moves), m)
    ensures Legal(out, rem, moves + [m]) && After(rem, moves + [m]) == After(rem, moves) - {m.node}
    ensures Left(moves + [m]) == Left(moves) + if m.Sink? then [] else [m.node]
    ensures Right(moves + [m]) == (if m.Sink? then [m.node] else []) + Right(moves)
  {
    hide Legal, LegalMove, After, Left, Right;
    SnocLegal(out, rem, moves, m);
    SnocLeft(moves, m);
    SnocRight(moves, m);
  }

  /** Left after some moves are the nodes that none of them removed. */
  lemma {:induction false} AfterMeaning<T(!new)>(rem: set<T>, moves: seq<Move<T>>, x: T)
    ensures x in After(rem, moves) <==> x in rem && forall i :: 0 <= i < |moves| ==> moves[i].node != x
  {
    if moves != [] {
      AfterMeaning(rem - {moves[0].node}, moves[1..], x);
      assert forall i :: 0 < i < |moves| ==> moves[i] == moves[1..][i - 1];
    }
  }

  lemma {:induction false} LegalNode<T(!new)>(out: Weights<T>, rem: set<T>, moves: seq<Move<T>>, i: nat)
    requires Legal(out, rem, moves) && i < |moves|
    ensures moves[i].node in rem
  {
    if i > 0 {
      LegalNode(out, rem - {moves[0].node}, moves[1..], i - 1);
    }
  }

  // ----- the order is a permutation of the nodes

  lemma {:induction false} OrderIsPermutation<T(!new)>(out: Weights<T>, rem: set<T>, moves: seq<Move<T>>)
    requires Legal(out, rem, moves) && After(rem, moves) == {}
    ensures Distinct(OrderOf(moves)) && Elems(OrderOf(moves)) == rem
  {
    if moves != [] {
      OrderIsPermutation(out, rem - {moves[0].node}, moves[1..]);
      OrderStep(moves);
      var n, rest := moves[0].node, OrderOf(moves[1..]);
      assert n !in Elems(rest);
      forall x ensures x in OrderOf(moves) <==> x == n || x in Elems(rest) {}
    }
  }

  /** Where the moves put the nodes: an earlier move further left, unless it removes a sink, which goes
      to the right of all that is still to come. */
  lemma {:induction false} OrderByMoves<T(!new)>(out: Weights<T>, rem: set<T>, moves: seq<Move<T>>, i: nat, j: nat)
    requires Legal(out, rem, moves) && After(rem, moves) == {} && i < j < |moves|
    ensures if moves[i].Sink? then Before(OrderOf(moves), moves[j].node, moves[i].node)
            else Before(OrderOf(moves), moves[i].node, moves[j].node)
  {
    hide Before, LegalMove, Left, Right;
    var n, rest := moves[0].node, OrderOf(moves[1..]);
    OrderStep(moves);
    hide OrderOf;
    if i == 0 {
      OrderIsPermutation(out, rem - {n}, moves[1..]);
      LegalNode(out, rem - {n}, moves[1..], j - 1);
      assert moves[j] == moves[1..][j - 1];
      assert moves[j].node in Elems(rest);
    } else {
      assert moves[i] == moves[1..][i - 1] && moves[j] == moves[1..][j - 1];
      OrderByMoves(out, rem - {n}, moves[1..], i - 1, j - 1);
    }
    BeforeCons(n, rest, moves[i].node, moves[j].node);
    BeforeSnoc(rest, n, moves[j].node, moves[i].node);
    BeforeCons(n, rest, moves[j].node, moves[i].node);
    BeforeSnoc(rest, n, moves[i].node, moves[j].node);
  }

  // ----- the half bound

  lemma TotalUnion<T(!new)>(out: Weights<T>, a: set<(T, T)>, b: set<(T, T)>)
    requires a !! b
    ensures Total(out, a + b) == Total(out, a) + Total(out, b)
  {
    SumUnion(a, b, WeightOf(out));
  }

  lemma BackCons<T(!new)>(out: Weights<T>, n: T, rest: seq<T>)
    requires n !in rest
    ensures BackArcs(out, [n] + rest) == BackArcs(out, rest) + InArcs(out, Elems(rest), n)
    ensures BackArcs(out, rest) !! InArcs(out, Elems(rest), n)
  {
    forall u, v ensures Before([n] + rest, v, u) <==> Before(rest, v, u) || (v == n && u in rest) {
      BeforeCons(n, rest, v, u);
    }
  }

  lemma BackSnoc<T(!new)>(out: Weights<T>, rest: seq<T>, n: T)
    requires n !in rest
    ensures BackArcs(out, rest + [n]) == BackArcs(out, rest) + OutArcs(out, Elems(rest), n)
    ensures BackArcs(out, rest) !! OutArcs(out, Elems(rest), n)
  {
    forall u, v ensures Before(rest + [n], v, u) <==> Before(rest, v, u) || (u == n && v in rest) {
      BeforeSnoc(rest, n, v, u);
    }
  }

  lemma AddOut<T(!new)>(out: Weights<T>, s: set<T>, n: T, v: T)
    requires v !in s
    ensures Total(out, OutArcs(out, s + {v}, n)) ==
            Total(out, OutArcs(out, s, n)) + if Arc(out, n, v) then out[n][v] else 0
  {
    if Arc(out, n, v) {
      assert OutArcs(out, s + {v}, n) == OutArcs(out, s, n) + {(n, v)};
      SumAdd(OutArcs(out, s, n), WeightOf(out), (n, v));
    } else {
      assert OutArcs(out, s + {v}, n) == OutArcs(out, s, n);
    }
  }

  lemma AddIn<T(!new)>(out: Weights<T>, s: set<T>, n: T, u: T)
    requires u !in s
    ensures Total(out, InArcs(out, s + {u}, n)) ==
            Total(out, InArcs(out, s, n)) + if Arc(out, u, n) then out[u][n] else 0
  {
    if Arc(out, u, n) {
      assert InArcs(out, s + {u}, n) == InArcs(out, s, n) + {(u, n)};
      SumAdd(InArcs(out, s, n), WeightOf(out), (u, n));
    } else {
      assert InArcs(out, s + {u}, n) == InArcs(out, s, n);
    }
  }

  // ----- what a score is worth

  /** The score of a node is the weight of backward edges that placing it before the other remaining nodes
      saves, compared with placing it after them. */
  lemma ScoreSaves<T(!new)>(out: Weights<T>, rem: set<T>, n: T, rest: seq<T>)
    requires n in rem && Elems(rest) == rem - {n}
    ensures Total(out, BackArcs(out, rest + [n])) - Total(out, BackArcs(out, [n] + rest)) == Score(out, rem, n)
  {
    var others := rem - {n};
    assert n !in Elems(rest);
    hide OutArcs, InArcs, BackArcs, Total;
    BackCons(out, n, rest);
    BackSnoc(out, rest, n);
    TotalUnion(out, BackArcs(out, rest), InArcs(out, others, n));
    TotalUnion(out, BackArcs(out, rest), OutArcs(out, others, n));
    assert others + {n} == rem;
    AddOut(out, others, n, n);
    AddIn(out, others, n, n);
  }

  lemma ArcsSplit<T(!new)>(out: Weights<T>, rem: set<T>, n: T)
    requires n in rem
    ensures Total(out, Arcs(out, rem)) ==
            Total(out, Arcs(out, rem - {n})) + Total(out, OutArcs(out, rem, n)) + Total(out, InArcs(out, rem - {n}, n))
  {
    var a, b, c := Arcs(out, rem - {n}), OutArcs(out, rem, n), InArcs(out, rem - {n}, n);
    assert Arcs(out, rem) == a + b + c;
    SumUnion(a + b, c, WeightOf(out));
    SumUnion(a, b, WeightOf(out));
  }

  lemma InShrinks<T(!new)>(out: Weights<T>, rem: set<T>, n: T)
    ensures Total(out, InArcs(out, rem - {n}, n)) <= Total(out, InArcs(out, rem, n))
  {
    SumSubset(InArcs(out, rem - {n}, n), InArcs(out, rem, n), WeightOf(out));
  }

  ghost function From<T(!new)>(out: Weights<T>, rem: set<T>, s: set<T>): set<(T, T)> {
    set u, v | u in s && v in rem && Arc(out, u, v) :: (u, v)
  }

  ghost function Into<T(!new)>(out: Weights<T>, rem: set<T>, s: set<T>): set<(T, T)> {
    set u, v | u in rem && v in s && Arc(out, u, v) :: (u, v)
  }

  lemma FromSplit<T(!new)>(out: Weights<T>, rem: set<T>, s: set<T>, x: T)
    requires x in s
    ensures Total(out, From(out, rem, s)) == Total(out, From(out, rem, s - {x})) + Total(out, OutArcs(out, rem, x))
  {
    assert From(out, rem, s) == From(out, rem, s - {x}) + OutArcs(out, rem, x);
    SumUnion(From(out, rem, s - {x}), OutArcs(out, rem, x), WeightOf(out));
  }

  lemma IntoSplit<T(!new)>(out: Weights<T>, rem: set<T>, s: set<T>, x: T)
    requires x in s
    ensures Total(out, Into(out, rem, s)) == Total(out, Into(out, rem, s - {x})) + Total(out, InArcs(out, rem, x))
  {
    assert Into(out, rem, s) == Into(out, rem, s - {x}) + InArcs(out, rem, x);
    SumUnion(Into(out, rem, s - {x}), InArcs(out, rem, x), WeightOf(out));
  }

  lemma NoArcs<T(!new)>(out: Weights<T>, rem: set<T>)
    ensures Total(out, From(out, rem, {})) == 0 && Total(out, Into(out, rem, {})) == 0
  {
    assert From(out, rem, {}) == {} && Into(out, rem, {}) == {};
  }

  lemma TotalAdd<T(!new)>(out: Weights<T>, arcs: set<(T, T)>, u: T, v: T)
    requires Arc(out, u, v) && (u, v) !in arcs
    ensures Total(out, arcs + {(u, v)}) == Total(out, arcs) + out[u][v]
  {
    SumAdd(arcs, WeightOf(out), (u, v));
  }

  /** Nodes of negative score receive more than they send. */
  lemma {:induction false} NegativeScores<T(!new)>(out: Weights<T>, rem: set<T>, s: set<T>)
    requires forall x :: x in s ==> Score(out, rem, x) < 0
    ensures Total(out, From(out, rem, s)) + |s| <= Total(out, Into(out, rem, s))
    decreases |s|
  {
    hide From, Into, OutArcs, InArcs, Sum, WeightOf;
    if s == {} {
      NoArcs(out, rem);
    } else {
      var x :| x in s;
      NegativeScores(out, rem, s - {x});
      FromSplit(out, rem, s, x);
      IntoSplit(out, rem, s, x);
    }
  }

  /** Out-weight minus in-weight sums to nothing over the remaining nodes, so the best is not negative. */
  lemma BestScore<T(!new)>(out: Weights<T>, rem: set<T>, n: T)
    requires n in rem && forall x :: x in rem ==> Score(out, rem, x) <= Score(out, rem, n)
    ensures 0 <= Score(out, rem, n)
  {
    if Score(out, rem, n) < 0 {
      assert From(out, rem, rem) == Into(out, rem, rem);
      NegativeScores(out, rem, rem);
    }
  }

  /** A node of which at most half of its weight comes in may go first. */
  lemma FirstStep<T(!new)>(out: Weights<T>, rem: set<T>, n: T, rest: seq<T>)
    requires n in rem && Elems(rest) == rem - {n}
    requires Total(out, InArcs(out, rem - {n}, n)) <= Total(out, OutArcs(out, rem, n))
    requires 2 * Total(out, BackArcs(out, rest)) <= Total(out, Arcs(out, rem - {n}))
    ensures 2 * Total(out, BackArcs(out, [n] + rest)) <= Total(out, Arcs(out, rem))
  {
    assert n !in Elems(rest);
    ArcsSplit(out, rem, n);
    BackCons(out, n, rest);
    SumUnion(BackArcs(out, rest), InArcs(out, rem - {n}, n), WeightOf(out));
  }

  /** A sink may go last. */
  lemma LastStep<T(!new)>(out: Weights<T>, rem: set<T>, n: T, rest: seq<T>)
    requires n in rem && Elems(rest) == rem - {n} && IsSink(out, rem, n)
    requires 2 * Total(out, BackArcs(out, rest)) <= Total(out, Arcs(out, rem - {n}))
    ensures 2 * Total(out, BackArcs(out, rest + [n])) <= Total(out, Arcs(out, rem))
  {
    assert n !in Elems(rest);
    ArcsSplit(out, rem, n);
    BackSnoc(out, rest, n);
    assert OutArcs(out, rem - {n}, n) == {};
    assert BackArcs(out, rest + [n]) == BackArcs(out, rest);
    SumNonNegative(InArcs(out, rem - {n}, n), WeightOf(out));
    SumNonNegative(OutArcs(out, rem, n), WeightOf(out));
  }

  /** Sources and picked nodes receive no more than they send. */
  lemma SentCoversReceived<T(!new)>(out: Weights<T>, rem: set<T>, m: Move<T>)
    requires LegalMove(out, rem, m) && !m.Sink?
    ensures Total(out, InArcs(out, rem - {m.node}, m.node)) <= Total(out, OutArcs(out, rem, m.node))
  {
    SumNonNegative(OutArcs(out, rem, m.node), WeightOf(out));
    if m.Source? {
      assert InArcs(out, rem - {m.node}, m.node) == {};
    } else {
      InShrinks(out, rem, m.node);
      BestScore(out, rem, m.node);
    }
  }

  /** At most half of the weight points backwards. */
  lemma {:induction false} HalfBound<T(!new)>(out: Weights<T>, rem: set<T>, moves: seq<Move<T>>)
    requires Legal(out, rem, moves) && After(rem, moves) == {}
    ensures 2 * Total(out, BackArcs(out, OrderOf(moves))) <= Total(out, Arcs(out, rem))
  {
    if moves == [] {
      assert BackArcs(out, OrderOf(moves)) == {};
      assert Arcs(out, rem) == {};
    } else {
      var n := moves[0].node;
      HalfBound(out, rem - {n}, moves[1..]);
      OrderIsPermutation(out, rem - {n}, moves[1..]);
      OrderStep(moves);
      if moves[0].Sink? {
        LastStep(out, rem, n, OrderOf(moves[1..]));
      } else {
        SentCoversReceived(out, rem, moves[0]);
        FirstStep(out, rem, n, OrderOf(moves[1..]));
      }
    }
  }

  // ----- exactly which edges point backwards

  /** `v` was taken for its score while `u` was still there. */
  ghost predicate PickedWhileLeft<T(!new)>(rem: set<T>, moves: seq<Move<T>>, v: T, u: T) {
    exists i :: 0 <= i < |moves| && moves[i] == Pick(v) && u in After(rem, moves[..i + 1])
  }

  lemma PickedStep<T(!new)>(rem: set<T>, moves: seq<Move<T>>, v: T, u: T)
    requires moves != []
    ensures PickedWhileLeft(rem, moves, v, u) <==>
            || (moves[0] == Pick(v) && u in rem - {v})
            || PickedWhileLeft(rem - {moves[0].node}, moves[1..], v, u)
  {
    var n, rest := moves[0].node, moves[1..];
    assert moves[..1][1..] == [];
    assert After(rem, moves[..1]) == rem - {n};
    if PickedWhileLeft(rem, moves, v, u) {
      var i :| 0 <= i < |moves| && moves[i] == Pick(v) && u in After(rem, moves[..i + 1]);
      if i > 0 {
        assert moves[..i + 1][1..] == rest[..i - 1 + 1];
        assert rest[i - 1] == Pick(v);
      }
    }
    if PickedWhileLeft(rem - {n}, rest, v, u) {
      var i :| 0 <= i < |rest| && rest[i] == Pick(v) && u in After(rem - {n}, rest[..i + 1]);
      assert moves[..i + 1 + 1][1..] == rest[..i + 1];
      assert moves[i + 1] == Pick(v);
    }
    if moves[0] == Pick(v) && u in rem - {v} {
      assert u in After(rem, moves[..0 + 1]);
    }
  }

  lemma {:induction false} AfterShrinks<T(!new)>(rem: set<T>, moves: seq<Move<T>>)
    ensures After(rem, moves) <= rem
  {
    if moves != [] {
      AfterShrinks(rem - {moves[0].node}, moves[1..]);
    }
  }

  lemma NotPickedLater<T(!new)>(out: Weights<T>, rem: set<T>, moves: seq<Move<T>>, v: T, u: T)
    requires Legal(out, rem, moves) && (v !in rem || u !in rem)
    ensures !PickedWhileLeft(rem, moves, v, u)
  {
    forall i | 0 <= i < |moves| && moves[i] == Pick(v) ensures u !in After(rem, moves[..i + 1]) {
      LegalNode(out, rem, moves, i);
      AfterShrinks(rem, moves[..i + 1]);
    }
  }

  lemma NotBefore<T(!new)>(order: seq<T>, v: T, u: T)
    requires v !in order || u !in order
    ensures !Before(order, v, u)
  {
  }

  /** An edge points backwards exactly when its target was picked for its score while its source
      was still remaining. Removing sinks and sources never causes one. */
  lemma {:induction false} BackwardIffPicked<T(!new)>(out: Weights<T>, rem: set<T>, moves: seq<Move<T>>, u: T, v: T)
    requires Legal(out, rem, moves) && After(rem, moves) == {}
    requires u in rem && v in rem && Arc(out, u, v)
    ensures (u, v) in BackArcs(out, OrderOf(moves)) <==> PickedWhileLeft(rem, moves, v, u)
  {
    var n := moves[0].node;
    var rest := OrderOf(moves[1..]);
    OrderStep(moves);
    OrderIsPermutation(out, rem, moves);
    OrderIsPermutation(out, rem - {n}, moves[1..]);
    PickedStep(rem, moves, v, u);
    assert u in Elems(OrderOf(moves)) && v in Elems(OrderOf(moves));
    assert forall x :: x in rest <==> x in Elems(rest);
    if moves[0].Sink? {
      BeforeSnoc(rest, n, v, u);
    } else {
      BeforeCons(n, rest, v, u);
    }
    if u != n && v != n {
      BackwardIffPicked(out, rem - {n}, moves[1..], u, v);
    } else {
      NotPickedLater(out, rem - {n}, moves[1..], v, u);
      NotBefore(rest, v, u);
    }
  }

  lemma {:induction false} LegalMoveAt<T(!new)>(out: Weights<T>, rem: set<T>, moves: seq<Move<T>>, i: nat)
    requires Legal(out, rem, moves) && i < |moves|
    ensures LegalMove(out, After(rem, moves[..i]), moves[i])
  {
    if i > 0 {
      LegalMoveAt(out, rem - {moves[0].node}, moves[1..], i - 1);
      assert moves[..i][1..] == moves[1..][..i - 1];
    }
  }

  /** What each move of a run is made for, in terms of the edges between the nodes still there. A node taken
      for its score saves at least as much backward weight by going first as any other would, and it is
      taken only when each has a successor and a predecessor left. */
  lemma MoveMeaning<T(!new)>(out: Weights<T>, rem: set<T>, moves: seq<Move<T>>, i: nat, x: T,
                             others: seq<T>, rest: seq<T>)
    requires Legal(out, rem, moves) && i < |moves| && x in After(rem, moves[..i])
    requires Elems(others) == After(rem, moves[..i]) - {x}
    requires Elems(rest) == After(rem, moves[..i]) - {moves[i].node}
    ensures var (left, n) := (After(rem, moves[..i]), moves[i].node);
            && n in left
            && (moves[i].Sink? ==> !Arc(out, n, x))
            && (moves[i].Source? ==> !Arc(out, x, n))
            && (moves[i].Pick? ==>
                  && (exists v :: v in left && Arc(out, x, v)) && (exists u :: u in left && Arc(out, u, x))
                  && Total(out, BackArcs(out, others + [x])) - Total(out, BackArcs(out, [x] + others)) <=
                     Total(out, BackArcs(out, rest + [n])) - Total(out, BackArcs(out, [n] + rest)))
  {
    var left, n := After(rem, moves[..i]), moves[i].node;
    LegalMoveAt(out, rem, moves, i);
    if moves[i].Pick? {
      hide Score;
      ScoreSaves(out, left, x, others);
      ScoreSaves(out, left, n, rest);
      assert !IsSink(out, left, x) && !IsSource(out, left, x);
    }
  }

  // ----- acyclic inputs

  ghost predicate AcyclicOn<T(!new)>(g: Graph<T>, s: set<T>) {
    forall u :: u in s ==> !OnCycle(g, u)
  }

  /** As long as nothing remaining lies on a cycle there is a sink, so no node is taken for its score. */
  lemma {:induction false} AcyclicNeverPicks<T(!new)>(out: Weights<T>, rem: set<T>, moves: seq<Move<T>>, i: nat)
    requires Legal(out, rem, moves) && AcyclicOn(GraphOf(out), rem) && i < |moves|
    ensures !moves[i].Pick?
  {
    if i > 0 {
      AcyclicNeverPicks(out, rem - {moves[0].node}, moves[1..], i - 1);
    } else if moves[0].Pick? {
      var g := GraphOf(out);
      forall u | u in rem ensures HasSucc(g, rem, u) {
        assert !IsSink(out, rem, u);
        var v :| v in rem && Arc(out, u, v);
        assert Edge(g, u, v);
      }
      var c := NoSinkMakesCycle(g, rem, moves[0].node);
    }
  }

  /** Without self-edges, no edge points backwards if and only if the nodes carry no cycle. */
  lemma NoBackArcsIffAcyclic<T(!new)>(out: Weights<T>, rem: set<T>, moves: seq<Move<T>>)
    requires Legal(out, rem, moves) && After(rem, moves) == {}
    requires Closed(GraphOf(out), rem) && forall u :: u in rem ==> !Arc(out, u, u)
    ensures BackArcs(out, OrderOf(moves)) == {} <==> AcyclicOn(GraphOf(out), rem)
  {
    var g, order := GraphOf(out), OrderOf(moves);
    OrderIsPermutation(out, rem, moves);
    assert forall x :: x in order <==> x in Elems(order);
    if BackArcs(out, order) == {} {
      forall u, v | u in order && v in order && Edge(g, u, v) ensures Before(order, u, v) {
        assert Arc(out, u, v);
        assert (u, v) !in BackArcs(out, order);
        BeforeTotal(order, u, v);
      }
      forall u | u in rem ensures !OnCycle(g, u) {
        ForwardNoCycle(g, order, u);
      }
    }
    if AcyclicOn(g, rem) {
      forall e | e in BackArcs(out, order) ensures false {
        BackwardIffPicked(out, rem, moves, e.0, e.1);
        var i :| 0 <= i < |moves| && moves[i] == Pick(e.1) && e.0 in After(rem, moves[..i + 1]);
        AcyclicNeverPicks(out, rem, moves, i);
      }
    }
  }

  // ----- the algorithm

  ghost predicate Covers<T(!new)>(nodes: seq<T>, out: Weights<T>) {
    forall u :: u in nodes ==> u in out && forall v :: v in out[u] ==> v in nodes
  }

  method ComputeScore<T(==,!new)>(out: Weights<T>, remaining: set<T>, n: T) returns (score: int)
    requires n in out && remaining <= out.Keys
    ensures score == Score(out, remaining, n)
  {
    var o: int := 0;
    var todo := out[n].Keys;
    ghost var done: set<T> := {};
    assert OutArcs(out, {}, n) == {};
    while todo != {}
      invariant done !! todo && done + todo == out[n].Keys
      invariant o == Total(out, OutArcs(out, remaining * done, n))
      decreases todo
    {
      var v :| v in todo;
      if v in remaining {
        AddOut(out, remaining * done, n, v);
        assert remaining * (done + {v}) == remaining * done + {v};
        o := o + out[n][v];
      } else {
        assert remaining * (done + {v}) == remaining * done;
      }
      todo, done := todo - {v}, done + {v};
    }
    assert OutArcs(out, remaining * done, n) == OutArcs(out, remaining, n);
    var i: int := 0;
    todo, done := remaining, {};
    assert InArcs(out, {}, n) == {};
    while todo != {}
      invariant done !! todo && done + todo == remaining
      invariant i == Total(out, InArcs(out, done, n))
      decreases todo
    {
      var u :| u in todo;
      AddIn(out, done, n, u);
      if n in out[u] {
        i := i + out[u][n];
      }
      todo, done := todo - {u}, done + {u};
    }
    assert done == remaining;
    score := o - i;
  }

  method BestNode<T(==,!new)>(out: Weights<T>, remaining: set<T>) returns (pick: T)
    requires remaining != {} && remaining <= out.Keys
    ensures pick in remaining
    ensures forall x :: x in remaining ==> Score(out, remaining, x) <= Score(out, remaining, pick)
  {
    pick :| pick in remaining;
    var best := ComputeScore(out, remaining, pick);
    var todo := remaining - {pick};
    while todo != {}
      invariant todo <= remaining && pick in remaining && best == Score(out, remaining, pick)
      invariant forall x :: x in remaining - todo ==> Score(out, remaining, x) <= best
      decreases todo
    {
      var x :| x in todo;
      var s := ComputeScore(out, remaining, x);
      if s > best {
        pick, best := x, s;
      }
      todo := todo - {x};
    }
  }

  /** The state of a run: what has been placed so far is what the moves say. */
  ghost predicate Running<T(!new)>(out: Weights<T>, all: set<T>, moves: seq<Move<T>>,
                                   remaining: set<T>, left: seq<T>, right: seq<T>) {
    && Legal(out, all, moves)
    && After(all, moves) == remaining
    && Left(moves) == left
    && Right(moves) == right
  }

  /** Removes sinks and sources, in any order, until a whole round finds none. */
  method Peel<T(==,!new)>(nodes: seq<T>, out: Weights<T>, remaining0: set<T>, left0: seq<T>, right0: seq<T>,
                          ghost moves0: seq<Move<T>>)
    returns (remaining: set<T>, left: seq<T>, right: seq<T>, ghost moves: seq<Move<T>>)
    requires Covers(nodes, out) && remaining0 <= Elems(nodes)
    requires Running(out, Elems(nodes), moves0, remaining0, left0, right0)
    ensures remaining <= remaining0 && Running(out, Elems(nodes), moves, remaining, left, right)
    ensures NoEnds(out, remaining)
  {
    hide Legal, After, Left, Right;
    remaining, left, right, moves := remaining0, left0, right0, moves0;
    ghost var all := Elems(nodes);
    var changed := true;
    while changed
      invariant remaining <= remaining0 && Running(out, all, moves, remaining, left, right)
      invariant !changed ==> NoEnds(out, remaining)
      decreases remaining, changed
    {
      changed := false;
      ghost var start := remaining;
      var todo := remaining;
      while todo != {}
        invariant todo <= remaining <= start && Running(out, all, moves, remaining, left, right)
        invariant if changed then remaining < start else
                    remaining == start
                      && forall x {:trigger IsSink(out, start, x)} :: x in start - todo ==> !IsSink(out, start, x)
        decreases todo
      {
        var n :| n in todo;
        if forall v :: v in out[n] ==> v !in remaining {
          assert IsSink(out, remaining, n);
          Snoc(out, all, moves, Sink(n));
          right := [n] + right;
          remaining := remaining - {n};
          moves := moves + [Sink(n)];
          changed := true;
        } else {
          assert !IsSink(out, remaining, n);
        }
        todo := todo - {n};
      }
      ghost var sinksGone := changed;
      todo := remaining;
      while todo != {}
        invariant todo <= remaining <= start && Running(out, all, moves, remaining, left, right)
        invariant sinksGone ==> changed
        invariant if changed then remaining < start else
                    remaining == start
                      && forall x {:trigger IsSource(out, start, x)} :: x in start - todo ==> !IsSource(out, start, x)
        decreases todo
      {
        var n :| n in todo;
        if forall u :: u in nodes && n in out[u] ==> u !in remaining {
          assert IsSource(out, remaining, n);
          Snoc(out, all, moves, Source(n));
          left := left + [n];
          remaining := remaining - {n};
          moves := moves + [Source(n)];
          changed := true;
        } else {
          assert !IsSource(out, remaining, n);
        }
        todo := todo - {n};
      }
    }
  }

  method EadesOrder<T(==,!new)>(nodes: seq<T>, out: Weights<T>)
    returns (order: seq<T>, ghost moves: seq<Move<T>>)
    requires Covers(nodes, out)
    ensures Distinct(order) && Elems(order) == Elems(nodes)
    ensures 2 * Total(out, BackArcs(out, order)) <= Total(out, Arcs(out, Elems(nodes)))
    ensures Legal(out, Elems(nodes), moves) && After(Elems(nodes), moves) == {} && order == OrderOf(moves)
  {
    ghost var all := Elems(nodes);
    var remaining := set n | n in nodes;
    var left: seq<T>, right: seq<T> := [], [];
    moves := [];
    while remaining != {}
      invariant remaining <= all && Running(out, all, moves, remaining, left, right)
      decreases remaining
    {
      remaining, left, right, moves := Peel(nodes, out, remaining, left, right, moves);
      if remaining == {} {
        break;
      }
      var pick := BestNode(out, remaining);
      Snoc(out, all, moves, Pick(pick));
      left := left + [pick];
      remaining := remaining - {pick};
      moves := moves + [Pick(pick)];
    }
    order := left + right;
    OrderIsPermutation(out, all, moves);
    HalfBound(out, all, moves);
  }
}
