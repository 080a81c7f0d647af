/** Campaign records and the keyed list they are kept in. */
module Records {
  import opened Components
  import opened Options

  /** A trial counts as numeric when it has a reward. */
  datatype Trial = Trial(name: string, reward: Option<real>, details: string)

  datatype Status =
    | Completed
    | CompletedWithPartialNumericReward
    | CompletedWithoutNumericReward
    | FailedToProduceResult
    | MissingTrialResults

  datatype Record = Record(
    task: string, job: string, status: Status, mean: Option<real>, trials: seq<Trial>,
    returnCode: Option<int>, details: string)

  type Key = (string, string)

  function KeyOf(r: Record): Key {
    (r.task, r.job)
  }

  function Numeric(trials: seq<Trial>): seq<real> {
    if trials == [] then []
    else (if trials[0].reward.Some? then [trials[0].reward.value] else []) + Numeric(trials[1..])
  }

  function SumOf(s: seq<real>): real {
    if s == [] then 0.0 else s[0] + SumOf(s[1..])
  }

  function Mean(trials: seq<Trial>): Option<real> {
    var n := Numeric(trials);
    if n == [] then None else Some(SumOf(n) / |n| as real)
  }

  // ----- what counts as a reward

  /** The reward of each trial, if it has one. */
  ghost function Rewards(trials: seq<Trial>): seq<Option<real>> {
    seq(|trials|, i requires 0 <= i < |trials| => trials[i].reward)
  }

  lemma RewardsCons(trials: seq<Trial>)
    requires trials != []
    ensures Rewards(trials) == [trials[0].reward] + Rewards(trials[1..])
  {
  }

  /** The numeric rewards are the rewards there are, zero among them, each as often as it occurs. */
  lemma {:induction false} NumericCounts(trials: seq<Trial>)
    ensures forall x :: multiset(Numeric(trials))[x] == multiset(Rewards(trials))[Some(x)]
    ensures |Numeric(trials)| == |trials| - multiset(Rewards(trials))[None]
  {
    if trials != [] {
      NumericCounts(trials[1..]);
      RewardsCons(trials);
    }
  }

  lemma {:induction false} SumOfConcat(a: seq<real>, b: seq<real>)
    ensures SumOf(a + b) == SumOf(a) + SumOf(b)
    ensures SumOf([]) == 0.0 && forall x :: SumOf([x]) == x
  {
    assert forall x: real :: [x][1..] == [];
    if a == [] {
      assert a + b == b;
    } else {
      SumOfConcat(a[1..], b);
      assert (a + b)[1..] == a[1..] + b;
    }
  }

  lemma {:induction false} SumOfBounds(s: seq<real>, lo: real, hi: real)
    requires forall k :: 0 <= k < |s| ==> lo <= s[k] <= hi
    ensures lo * |s| as real <= SumOf(s) <= hi * |s| as real
  {
    if s != [] {
      var n := |s[1..]| as real;
      SumOfBounds(s[1..], lo, hi);
      assert |s| as real == n + 1.0;
      assert lo * (n + 1.0) == lo * n + lo && hi * (n + 1.0) == hi * n + hi;
    }
  }

  lemma MulLess(x: real, y: real, n: real)
    requires n > 0.0 && x < y
    ensures x * n < y * n
  {
  }

  lemma CancelBounds(q: real, n: real, sum: real, lo: real, hi: real)
    requires n > 0.0 && q * n == sum && lo * n <= sum && sum <= hi * n
    ensures lo <= q <= hi
  {
    if q < lo {
      MulLess(q, lo, n);
    }
    if q > hi {
      MulLess(hi, q, n);
    }
  }

  lemma MeanTimesCount(trials: seq<Trial>)
    ensures Mean(trials) == None <==> Numeric(trials) == []
    ensures Mean(trials).Some? ==> Mean(trials).value * |Numeric(trials)| as real == SumOf(Numeric(trials))
  {
  }

  lemma {:induction false} NumericFromTrials(trials: seq<Trial>, lo: real, hi: real)
    requires forall i :: 0 <= i < |trials| && trials[i].reward.Some? ==> lo <= trials[i].reward.value <= hi
    ensures forall k :: 0 <= k < |Numeric(trials)| ==> lo <= Numeric(trials)[k] <= hi
    ensures Numeric(trials) == [] <==> forall i :: 0 <= i < |trials| ==> trials[i].reward == None
  {
    if trials != [] {
      var rest := trials[1..];
      assert forall i :: 0 <= i < |rest| ==> rest[i] == trials[i + 1];
      NumericFromTrials(rest, lo, hi);
      if Numeric(trials) == [] {
        assert forall i :: 0 < i < |trials| ==> trials[i] == rest[i - 1];
      }
    }
  }

  /** There is a mean exactly if some trial has a reward. Times their number it is the sum of the rewards,
      and it lies between any bounds of them. */
  lemma MeanMeaning(trials: seq<Trial>, lo: real, hi: real)
    requires forall i :: 0 <= i < |trials| && trials[i].reward.Some? ==> lo <= trials[i].reward.value <= hi
    ensures Mean(trials) == None <==> forall i :: 0 <= i < |trials| ==> trials[i].reward == None
    ensures Mean(trials).Some? ==>
              && Mean(trials).value * |Numeric(trials)| as real == SumOf(Numeric(trials))
              && lo <= Mean(trials).value <= hi
  {
    hide Numeric, SumOf, Mean;
    NumericFromTrials(trials, lo, hi);
    MeanTimesCount(trials);
    if Mean(trials).Some? {
      SumOfBounds(Numeric(trials), lo, hi);
      var q, n, sum := Mean(trials).value, |Numeric(trials)| as real, SumOf(Numeric(trials));
      CancelBounds(q, n, sum, lo, hi);
    }
  }

  // ----- the keyed list

  /** The record replaces the first one with its key, or goes to the end. */
  function Upsert(list: seq<Record>, r: Record): seq<Record> {
    if list == [] then [r]
    else if KeyOf(list[0]) == KeyOf(r) then [r] + list[1..]
    else [list[0]] + Upsert(list[1..], r)
  }

  function UpsertAll(list: seq<Record>, rs: seq<Record>): seq<Record>
    decreases |rs|
  {
    if rs == [] then list else UpsertAll(Upsert(list, rs[0]), rs[1..])
  }

  ghost predicate UniqueKeys(list: seq<Record>) {
    forall i, j :: 0 <= i < j < |list| ==> list[i].task != list[j].task || list[i].job != list[j].job
  }

  /** The record found under each key. */
  ghost function Index(list: seq<Record>): map<Key, Record> {
    if list == [] then map[] else Index(list[1..])[KeyOf(list[0]) := list[0]]
  }

  /** The record written last under each key. */
  ghost function Latest(rs: seq<Record>): map<Key, Record> {
    if rs == [] then map[] else Latest(rs[..|rs| - 1])[KeyOf(rs[|rs| - 1]) := rs[|rs| - 1]]
  }

  lemma {:induction false} UpsertReplaces(list: seq<Record>, i: nat, r: Record)
    requires i < |list| && KeyOf(list[i]) == KeyOf(r)
    requires forall k :: 0 <= k < i ==> KeyOf(list[k]) != KeyOf(r)
    ensures Upsert(list, r) == list[i := r]
  {
    if i > 0 {
      UpsertReplaces(list[1..], i - 1, r);
    }
  }

  lemma {:induction false} UpsertAppends(list: seq<Record>, r: Record)
    requires forall k :: 0 <= k < |list| ==> KeyOf(list[k]) != KeyOf(r)
    ensures Upsert(list, r) == list + [r]
  {
    if list != [] {
      UpsertAppends(list[1..], r);
    }
  }

  lemma {:induction false} FirstMatch(list: seq<Record>, r: Record) returns (i: nat)
    requires exists k :: 0 <= k < |list| && KeyOf(list[k]) == KeyOf(r)
    ensures i < |list| && KeyOf(list[i]) == KeyOf(r)
    ensures forall k :: 0 <= k < i ==> KeyOf(list[k]) != KeyOf(r)
  {
    i := 0;
    while KeyOf(list[i]) != KeyOf(r)
      invariant i < |list| && forall k :: 0 <= k < i ==> KeyOf(list[k]) != KeyOf(r)
      decreases |list| - i
    {
      i := i + 1;
    }
  }

  /** Records keep their positions, only one with the written key changes, and the list grows only
      for a new key. */
  lemma {:induction false} UpsertKeepsPositions(list: seq<Record>, r: Record)
    ensures |list| <= |Upsert(list, r)| <= |list| + 1
    ensures forall i :: 0 <= i < |list| ==>
              && Upsert(list, r)[i].task == list[i].task && Upsert(list, r)[i].job == list[i].job
              && (list[i].task != r.task || list[i].job != r.job ==> Upsert(list, r)[i] == list[i])
    ensures |Upsert(list, r)| == |list| <==>
            exists i :: 0 <= i < |list| && list[i].task == r.task && list[i].job == r.job
    ensures r in Upsert(list, r)
    ensures forall x :: x in Upsert(list, r) ==> x in list || x == r
  {
    if exists i :: 0 <= i < |list| && KeyOf(list[i]) == KeyOf(r) {
      var i := FirstMatch(list, r);
      UpsertReplaces(list, i, r);
      assert list[i := r][i] == r;
    } else {
      assert forall i :: 0 <= i < |list| ==> KeyOf(list[i]) != KeyOf(r);
      UpsertAppends(list, r);
    }
  }

  lemma UpsertKeepsUnique(list: seq<Record>, r: Record)
    requires UniqueKeys(list)
    ensures UniqueKeys(Upsert(list, r))
  {
    UpsertKeepsPositions(list, r);
    if exists i :: 0 <= i < |list| && KeyOf(list[i]) == KeyOf(r) {
      var i := FirstMatch(list, r);
      UpsertReplaces(list, i, r);
    } else {
      UpsertAppends(list, r);
    }
  }

  lemma {:induction false} UpsertUpdatesIndex(list: seq<Record>, r: Record)
    ensures Index(Upsert(list, r)) == Index(list)[KeyOf(r) := r]
  {
    if list != [] && KeyOf(list[0]) != KeyOf(r) {
      UpsertUpdatesIndex(list[1..], r);
    }
  }

  /** Writing the same record twice is writing it once. */
  lemma {:induction false} UpsertIdempotent(list: seq<Record>, r: Record)
    ensures Upsert(Upsert(list, r), r) == Upsert(list, r)
  {
    if list != [] && KeyOf(list[0]) != KeyOf(r) {
      UpsertIdempotent(list[1..], r);
    }
  }

  lemma {:induction false} LatestCons(r: Record, rs: seq<Record>)
    ensures Latest([r] + rs) == map[KeyOf(r) := r] + Latest(rs)
  {
    if rs == [] {
      assert ([r] + rs)[..0] == [];
    } else {
      LatestCons(r, rs[..|rs| - 1]);
      assert ([r] + rs)[..|rs|] == [r] + rs[..|rs| - 1];
    }
  }

  lemma {:induction false} UpsertAllKeepsUnique(list: seq<Record>, rs: seq<Record>)
    requires UniqueKeys(list)
    ensures UniqueKeys(UpsertAll(list, rs))
    decreases |rs|
  {
    if rs != [] {
      UpsertKeepsUnique(list, rs[0]);
      UpsertAllKeepsUnique(Upsert(list, rs[0]), rs[1..]);
    }
  }

  /** After any sequence of writes each key has the record written last. */
  lemma {:induction false} UpsertAllKeepsLatest(list: seq<Record>, rs: seq<Record>)
    ensures Index(UpsertAll(list, rs)) == Index(list) + Latest(rs)
    decreases |rs|
  {
    hide Upsert, Index;
    if rs != [] {
      UpsertUpdatesIndex(list, rs[0]);
      UpsertAllKeepsLatest(Upsert(list, rs[0]), rs[1..]);
      LatestCons(rs[0], rs[1..]);
      assert [rs[0]] + rs[1..] == rs;
    }
  }

  /** No record of `rs` from position `i` on is written for the task and job of `r`. */
  ghost predicate NotWritten(rs: seq<Record>, i: nat, r: Record) {
    forall j :: i <= j < |rs| ==> rs[j].task != r.task || rs[j].job != r.job
  }

  lemma {:induction false} LatestAt(rs: seq<Record>, i: nat)
    requires i < |rs| && NotWritten(rs, i + 1, rs[i])
    ensures KeyOf(rs[i]) in Latest(rs) && Latest(rs)[KeyOf(rs[i])] == rs[i]
  {
    var n := |rs| - 1;
    if i < n {
      assert KeyOf(rs[n]) != KeyOf(rs[i]);
      LatestAt(rs[..n], i);
    }
  }

  lemma {:induction false} LatestMisses(rs: seq<Record>, r: Record)
    requires NotWritten(rs, 0, r)
    ensures KeyOf(r) !in Latest(rs)
  {
    if rs != [] {
      var n := |rs| - 1;
      assert KeyOf(rs[n]) != KeyOf(r);
      LatestMisses(rs[..n], r);
    }
  }

  lemma {:induction false} LatestOfDistinct(rs: seq<Record>)
    requires UniqueKeys(rs)
    ensures forall k :: k in Latest(rs) <==> exists r :: r in rs && KeyOf(r) == k
    ensures forall r :: r in rs ==> KeyOf(r) in Latest(rs) && Latest(rs)[KeyOf(r)] == r
  {
    if rs != [] {
      LatestOfDistinct(rs[..|rs| - 1]);
      assert rs == rs[..|rs| - 1] + [rs[|rs| - 1]];
      forall r | r in rs ensures KeyOf(r) in Latest(rs) && Latest(rs)[KeyOf(r)] == r {
        var i :| 0 <= i < |rs| && rs[i] == r;
      }
    }
  }

  lemma {:induction false} IndexOfUnique(list: seq<Record>)
    requires UniqueKeys(list)
    ensures forall r :: r in list <==> KeyOf(r) in Index(list) && Index(list)[KeyOf(r)] == r
    ensures forall k :: k in Index(list) ==> KeyOf(Index(list)[k]) == k
  {
    if list != [] {
      IndexOfUnique(list[1..]);
      assert list == [list[0]] + list[1..];
      forall r | r in list[1..] ensures KeyOf(r) != KeyOf(list[0]) {
        var i :| 0 <= i < |list[1..]| && list[1..][i] == r;
      }
    }
  }

  /** Of the records for one task and job the one written last is there in the end, ... */
  lemma LastWriteWins(list: seq<Record>, rs: seq<Record>, i: nat)
    requires UniqueKeys(list) && i < |rs| && NotWritten(rs, i + 1, rs[i])
    ensures rs[i] in UpsertAll(list, rs)
  {
    UpsertAllKeepsUnique(list, rs);
    UpsertAllKeepsLatest(list, rs);
    IndexOfUnique(UpsertAll(list, rs));
    LatestAt(rs, i);
  }

  /** ... and one that is never written again stays. */
  lemma UnwrittenStays(list: seq<Record>, rs: seq<Record>, r: Record)
    requires UniqueKeys(list) && r in list && NotWritten(rs, 0, r)
    ensures r in UpsertAll(list, rs)
  {
    UpsertAllKeepsUnique(list, rs);
    UpsertAllKeepsLatest(list, rs);
    IndexOfUnique(UpsertAll(list, rs));
    IndexOfUnique(list);
    LatestMisses(rs, r);
  }

  lemma {:induction false} UniqueCount(list: seq<Record>)
    requires UniqueKeys(list)
    ensures |Elems(list)| == |list|
  {
    if list != [] {
      UniqueCount(list[1..]);
      assert list == [list[0]] + list[1..];
      assert Elems(list) == {list[0]} + Elems(list[1..]);
    }
  }

  /** Results with different keys may arrive in any order: the recorded set is the same. */
  lemma CompletionOrderIrrelevant(list: seq<Record>, rs: seq<Record>, qs: seq<Record>)
    requires UniqueKeys(list) && UniqueKeys(rs) && UniqueKeys(qs) && Elems(rs) == Elems(qs)
    ensures Elems(UpsertAll(list, rs)) == Elems(UpsertAll(list, qs))
    ensures |UpsertAll(list, rs)| == |UpsertAll(list, qs)|
  {
    assert forall r :: r in rs <==> r in Elems(rs);
    assert forall r :: r in qs <==> r in Elems(qs);
    UpsertAllKeepsUnique(list, rs);
    UpsertAllKeepsUnique(list, qs);
    UpsertAllKeepsLatest(list, rs);
    UpsertAllKeepsLatest(list, qs);
    LatestOfDistinct(rs);
    LatestOfDistinct(qs);
    assert Latest(rs) == Latest(qs);
    var a, b := UpsertAll(list, rs), UpsertAll(list, qs);
    IndexOfUnique(a);
    IndexOfUnique(b);
    forall r ensures r in a <==> r in b {}
    UniqueCount(a);
    UniqueCount(b);
  }
}
