/** Keeping the values that are present in a list of optional ones, in order. */
module Sifting {
  import opened Options

  ghost function Values<X>(all: seq<Option<X>>): seq<X> {
    if all == [] then [] else (if all[0].Some? then [all[0].value] else []) + Values(all[1..])
  }

  lemma ValuesCons<X>(x: Option<X>, all: seq<Option<X>>)
    ensures Values([x] + all) == (if x.Some? then [x.value] else []) + Values(all)
  {
    assert ([x] + all)[1..] == all;
  }

  lemma {:induction false} ValuesSnoc<X>(all: seq<Option<X>>, x: Option<X>)
    ensures Values(all + [x]) == Values(all) + if x.Some? then [x.value] else []
  {
    if all == [] {
      assert all + [x] == [x] + [];
      ValuesCons(x, []);
    } else {
      hide Values;
      var first, rest := all[0], all[1..];
      assert all == [first] + rest;
      assert all + [x] == [first] + (rest + [x]);
      var a := if first.Some? then [first.value] else [];
      var b := if x.Some? then [x.value] else [];
      calc {
        Values(all + [x]);
      ==  { ValuesCons(first, rest + [x]); }
        a + Values(rest + [x]);
      ==  { ValuesSnoc(rest, x); }
        a + (Values(rest) + b);
      ==
        a + Values(rest) + b;
      ==  { ValuesCons(first, rest); }
        Values(all) + b;
      }
    }
  }

  /** The values stand at ascending places, and no value is passed over. */
  lemma {:induction false} ValuesPlaces<X>(all: seq<Option<X>>) returns (at: seq<nat>)
    ensures |at| == |Values(all)|
    ensures forall j, k :: 0 <= j < k < |at| ==> at[j] < at[k]
    ensures forall k :: 0 <= k < |at| ==> at[k] < |all| && all[at[k]] == Some(Values(all)[k])
    ensures forall i :: 0 <= i < |all| && all[i].Some? ==> i in at
  {
    if all == [] {
      at := [];
    } else {
      var n := |all| - 1;
      assert all == all[..n] + [all[n]];
      ValuesSnoc(all[..n], all[n]);
      at := ValuesPlaces(all[..n]);
      if all[n].Some? {
        at := at + [n];
        assert at[|at| - 1] == n;
      }
      forall i | 0 <= i < |all| && all[i].Some? ensures i in at {
        if i < n {
          assert all[..n][i] == all[i];
        }
      }
    }
  }
}
