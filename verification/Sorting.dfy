/** Stable sorting by an integer key. */
module Sorting {

  function Insert<T>(key: T -> int, x: T, sorted: seq<T>): seq<T> {
    if sorted == [] || key(x) <= key(sorted[0]) then [x] + sorted
    else [sorted[0]] + Insert(key, x, sorted[1..])
  }

  function Sort<T>(key: T -> int, s: seq<T>): seq<T> {
    if s == [] then [] else Insert(key, s[0], Sort(key, s[1..]))
  }

  ghost predicate Ascending<T(!new)>(key: T -> int, s: seq<T>) {
    forall i, j :: 0 <= i < j < |s| ==> key(s[i]) <= key(s[j])
  }

  ghost function KeySum<T(!new)>(key: T -> int, s: seq<T>): int {
    if s == [] then 0 else key(s[0]) + KeySum(key, s[1..])
  }

  lemma {:induction false} InsertKeeps<T(!new)>(key: T -> int, x: T, sorted: seq<T>)
    ensures multiset(Insert(key, x, sorted)) == multiset{x} + multiset(sorted)
    ensures KeySum(key, Insert(key, x, sorted)) == key(x) + KeySum(key, sorted)
  {
    if sorted == [] || key(x) <= key(sorted[0]) {
      assert ([x] + sorted)[1..] == sorted;
    } else {
      InsertKeeps(key, x, sorted[1..]);
      assert Insert(key, x, sorted)[1..] == Insert(key, x, sorted[1..]);
      assert sorted == [sorted[0]] + sorted[1..];
    }
  }

  ghost predicate AtMost<T(!new)>(key: T -> int, x: T, s: seq<T>) {
    forall k :: 0 <= k < |s| ==> key(x) <= key(s[k])
  }

  lemma AscendingCons<T(!new)>(key: T -> int, x: T, s: seq<T>)
    ensures Ascending(key, [x] + s) <==> AtMost(key, x, s) && Ascending(key, s)
  {
    var t := [x] + s;
    assert forall k :: 0 <= k < |s| ==> t[k + 1] == s[k];
    if Ascending(key, t) {
      forall k | 0 <= k < |s| ensures key(x) <= key(s[k]) {
        assert key(t[0]) <= key(t[k + 1]);
      }
      forall i, j | 0 <= i < j < |s| ensures key(s[i]) <= key(s[j]) {
        assert key(t[i + 1]) <= key(t[j + 1]);
      }
    }
  }

  lemma {:induction false} InsertAtMost<T(!new)>(key: T -> int, y: T, x: T, sorted: seq<T>)
    requires AtMost(key, y, sorted) && key(y) <= key(x)
    ensures AtMost(key, y, Insert(key, x, sorted))
  {
    if sorted != [] && key(x) > key(sorted[0]) {
      InsertAtMost(key, y, x, sorted[1..]);
    }
  }

  lemma AtMostTrans<T(!new)>(key: T -> int, y: T, x: T, s: seq<T>)
    requires key(y) <= key(x) && AtMost(key, x, s)
    ensures AtMost(key, y, s)
  {
  }

  lemma AtMostCons<T(!new)>(key: T -> int, y: T, x: T, s: seq<T>)
    requires key(y) <= key(x) && AtMost(key, y, s)
    ensures AtMost(key, y, [x] + s)
  {
  }

  lemma AscendingOne<T(!new)>(key: T -> int, x: T)
    ensures Ascending(key, [x])
  {
  }

  lemma {:induction false} InsertAscends<T(!new)>(key: T -> int, x: T, sorted: seq<T>)
    requires Ascending(key, sorted)
    ensures Ascending(key, Insert(key, x, sorted))
  {
    hide Ascending, AtMost;
    if sorted == [] {
      AscendingOne(key, x);
      assert [x] + sorted == [x];
    } else {
      var rest := sorted[1..];
      assert sorted == [sorted[0]] + rest;
      AscendingCons(key, sorted[0], rest);
      if key(x) <= key(sorted[0]) {
        AtMostTrans(key, x, sorted[0], rest);
        AtMostCons(key, x, sorted[0], rest);
        AscendingCons(key, x, sorted);
      } else {
        InsertAscends(key, x, rest);
        InsertAtMost(key, sorted[0], x, rest);
        AscendingCons(key, sorted[0], Insert(key, x, rest));
      }
    }
  }

  lemma SameElements<T(!new)>(s: seq<T>, t: seq<T>)
    requires multiset(s) == multiset(t)
    ensures |s| == |t| && forall x :: x in s <==> x in t
  {
    assert |multiset(s)| == |multiset(t)|;
    forall x ensures x in s <==> x in t {
      assert x in multiset(s) <==> x in multiset(t);
    }
  }

  /** Sorting permutes, keeps the sum of the keys, and puts the keys in ascending order. */
  lemma {:induction false} SortKeeps<T(!new)>(key: T -> int, s: seq<T>)
    ensures multiset(Sort(key, s)) == multiset(s) && |Sort(key, s)| == |s|
    ensures forall x :: x in Sort(key, s) <==> x in s
    ensures KeySum(key, Sort(key, s)) == KeySum(key, s)
    ensures Ascending(key, Sort(key, s))
  {
    if s != [] {
      hide Ascending, Insert;
      var r := Sort(key, s[1..]);
      SortKeeps(key, s[1..]);
      InsertKeeps(key, s[0], r);
      InsertAscends(key, s[0], r);
      assert s == [s[0]] + s[1..];
      SameElements(Sort(key, s), s);
    }
  }
}
