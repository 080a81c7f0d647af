/** Spikes and net growth of the process samples in a memory log. */
module MemoryLog {
  import opened Options
  import opened Sifting
  import Sorting

  datatype Sample = Sample(timestampMs: int, pss: Option<int>)

  datatype Spike = Spike(start: int, end: int, delta: int)

  function Abs(x: int): (r: nat)
    ensures x <= r && -x <= r && (r == x || r == -x)
  {
    if x < 0 then -x else x
  }

  /** The samples that carry a process size, as those sizes. */
  function Sizes(samples: seq<Sample>): seq<int> {
    if samples == [] then []
    else (if samples[0].pss.Some? then [samples[0].pss.value] else []) + Sizes(samples[1..])
  }

  function SpikeBetween(a: int, b: int, threshold: int): seq<Spike> {
    if Abs(b - a) >= threshold then [Spike(a, b, b - a)] else []
  }

  /** The consecutive pairs that differ by at least the threshold, in log order. */
  function SpikesOf(sizes: seq<int>, threshold: int): seq<Spike> {
    if |sizes| < 2 then []
    else SpikeBetween(sizes[0], sizes[1], threshold) + SpikesOf(sizes[1..], threshold)
  }

  ghost function Readings(samples: seq<Sample>): seq<Option<int>> {
    seq(|samples|, i requires 0 <= i < |samples| => samples[i].pss)
  }

  /** Samples without a process size are skipped, no other. */
  lemma {:induction false} SizesMeaning(samples: seq<Sample>)
    ensures Sizes(samples) == Values(Readings(samples))
  {
    if samples != [] {
      assert Readings(samples) == [samples[0].pss] + Readings(samples[1..]);
      ValuesCons(samples[0].pss, Readings(samples[1..]));
      SizesMeaning(samples[1..]);
    }
  }

  /** For each pair of neighbours the spike it makes, if it does: up or down by the threshold or more. */
  ghost function Jumps(sizes: seq<int>, threshold: int): seq<Option<Spike>>
    requires sizes != []
  {
    seq(|sizes| - 1, i requires 0 <= i < |sizes| - 1 =>
      var delta := sizes[i + 1] - sizes[i];
      if delta >= threshold || -delta >= threshold then Some(Spike(sizes[i], sizes[i + 1], delta)) else None)
  }

  /** The spikes are those of all pairs of neighbours, in log order. */
  lemma {:induction false} SpikesMeaning(sizes: seq<int>, threshold: int)
    ensures sizes != [] ==> SpikesOf(sizes, threshold) == Values(Jumps(sizes, threshold))
  {
    if |sizes| > 1 {
      var rest := sizes[1..];
      var first := Jumps(sizes, threshold)[0];
      assert Jumps(sizes, threshold) == [first] + Jumps(rest, threshold);
      ValuesCons(first, Jumps(rest, threshold));
      SpikesMeaning(rest, threshold);
    }
  }

  function SumAbs(spikes: seq<Spike>): nat {
    if spikes == [] then 0 else Abs(spikes[0].delta) + SumAbs(spikes[1..])
  }

  function NetGrowth(sizes: seq<int>): int
    requires sizes != []
  {
    sizes[|sizes| - 1] - sizes[0]
  }

  function Differences(sizes: seq<int>): int {
    if |sizes| < 2 then 0 else sizes[1] - sizes[0] + Differences(sizes[1..])
  }

  /** The net growth is what the steps from sample to sample add up to, losses counting as negative. */
  lemma {:induction false} GrowthIsSum(sizes: seq<int>)
    requires sizes != []
    ensures NetGrowth(sizes) == Differences(sizes)
    ensures (forall i :: 0 <= i < |sizes| - 1 ==> sizes[i] <= sizes[i + 1]) ==> NetGrowth(sizes) >= 0
    ensures (forall i :: 0 <= i < |sizes| - 1 ==> sizes[i] > sizes[i + 1]) && |sizes| > 1 ==> NetGrowth(sizes) < 0
  {
    if |sizes| > 1 {
      GrowthIsSum(sizes[1..]);
      assert forall i :: 0 <= i < |sizes| - 1 ==> sizes[1..][i] == sizes[i + 1];
    }
  }

  /** What the spikes, and the pairs that are none, can add up to. */
  function Allowance(sizes: seq<int>, threshold: int): int {
    SumAbs(SpikesOf(sizes, threshold)) + (threshold - 1) * (|sizes| - 1 - |SpikesOf(sizes, threshold)|)
  }

  lemma AllowanceStep(sizes: seq<int>, threshold: int)
    requires |sizes| >= 2
    ensures Allowance(sizes, threshold) ==
            Allowance(sizes[1..], threshold) +
            if Abs(sizes[1] - sizes[0]) >= threshold then Abs(sizes[1] - sizes[0]) else threshold - 1
  {
    var rest := SpikesOf(sizes[1..], threshold);
    var n := |sizes| - 2 - |rest|;
    if Abs(sizes[1] - sizes[0]) >= threshold {
      var s := Spike(sizes[0], sizes[1], sizes[1] - sizes[0]);
      assert ([s] + rest)[1..] == rest;
    } else {
      assert SpikesOf(sizes, threshold) == rest;
      assert (threshold - 1) * (n + 1) == (threshold - 1) * n + (threshold - 1);
    }
  }

  /** The net growth is bounded by the spikes plus threshold minus one for every other pair. */
  lemma {:induction false} GrowthBound(sizes: seq<int>, threshold: int)
    requires sizes != []
    ensures Abs(NetGrowth(sizes)) <= Allowance(sizes, threshold)
  {
    if |sizes| == 1 {
      assert (threshold - 1) * 0 == 0;
    } else {
      GrowthBound(sizes[1..], threshold);
      AllowanceStep(sizes, threshold);
    }
  }

  /** Without a spike the process cannot have grown by more than threshold minus one per pair. */
  lemma NoSpikesNoGrowth(sizes: seq<int>, threshold: int)
    requires sizes != [] && SpikesOf(sizes, threshold) == []
    ensures Abs(NetGrowth(sizes)) <= (threshold - 1) * (|sizes| - 1)
  {
    GrowthBound(sizes, threshold);
  }

  /** With a positive threshold the same allowance bounds the distance of every sample, and so of the
      peak, from the first one. */
  lemma {:induction false} PeakBound(sizes: seq<int>, threshold: int, i: nat)
    requires i < |sizes| && threshold >= 1
    ensures Abs(sizes[i] - sizes[0]) <= Allowance(sizes, threshold)
  {
    if |sizes| > 1 {
      AllowanceStep(sizes, threshold);
      PeakBound(sizes[1..], threshold, if i == 0 then 0 else i - 1);
    } else {
      assert (threshold - 1) * 0 == 0;
    }
  }

  // ----- largest first

  function Smallness(s: Spike): int {
    0 - Abs(s.delta)
  }

  function SortByMagnitude(spikes: seq<Spike>): seq<Spike> {
    Sorting.Sort(Smallness, spikes)
  }

  predicate LargestFirst(spikes: seq<Spike>) {
    forall i, j :: 0 <= i < j < |spikes| ==> Abs(spikes[i].delta) >= Abs(spikes[j].delta)
  }

  lemma {:induction false} SumAbsIsKeySum(spikes: seq<Spike>)
    ensures SumAbs(spikes) == -Sorting.KeySum(Smallness, spikes)
  {
    if spikes != [] {
      SumAbsIsKeySum(spikes[1..]);
    }
  }

  lemma SortKeeps(spikes: seq<Spike>)
    ensures multiset(SortByMagnitude(spikes)) == multiset(spikes)
    ensures SumAbs(SortByMagnitude(spikes)) == SumAbs(spikes)
    ensures LargestFirst(SortByMagnitude(spikes))
    ensures |SortByMagnitude(spikes)| == |spikes|
  {
    var sorted := SortByMagnitude(spikes);
    Sorting.SortKeeps(Smallness, spikes);
    SumAbsIsKeySum(spikes);
    SumAbsIsKeySum(sorted);
    forall i, j | 0 <= i < j < |sorted| ensures Abs(sorted[i].delta) >= Abs(sorted[j].delta) {
      assert Smallness(sorted[i]) <= Smallness(sorted[j]);
    }
  }

  lemma SpikesCons(a: int, sizes: seq<int>, threshold: int)
    requires sizes != []
    ensures SpikesOf([a] + sizes, threshold) == SpikeBetween(a, sizes[0], threshold) + SpikesOf(sizes, threshold)
  {
    assert ([a] + sizes)[1..] == sizes;
  }

  lemma {:induction false} SpikesSnoc(sizes: seq<int>, threshold: int, x: int)
    requires sizes != []
    ensures SpikesOf(sizes + [x], threshold) ==
            SpikesOf(sizes, threshold) + SpikeBetween(sizes[|sizes| - 1], x, threshold)
  {
    if |sizes| == 1 {
      assert sizes + [x] == [sizes[0]] + [x];
      SpikesCons(sizes[0], [x], threshold);
    } else {
      hide SpikesOf, SpikeBetween;
      var rest := sizes[1..];
      SpikesSnoc(rest, threshold, x);
      assert sizes == [sizes[0]] + rest;
      assert sizes + [x] == [sizes[0]] + (rest + [x]);
      SpikesCons(sizes[0], rest, threshold);
      SpikesCons(sizes[0], rest + [x], threshold);
    }
  }

  lemma NoPairs(sizes: seq<int>, threshold: int)
    ensures sizes == [] ==> SpikesOf(sizes, threshold) == []
    ensures sizes != [] ==> SpikesOf(sizes[..1], threshold) == []
  {
  }

  method ComputeSpikes(samples: seq<Sample>, threshold: int) returns (spikes: seq<Spike>)
    ensures multiset(spikes) == multiset(SpikesOf(Sizes(samples), threshold))
    ensures LargestFirst(spikes)
    ensures Sizes(samples) != [] ==>
              Abs(NetGrowth(Sizes(samples))) <= SumAbs(spikes) + (threshold - 1) * (|Sizes(samples)| - 1 - |spikes|)
  {
    hide SpikesOf, SortByMagnitude, LargestFirst, SumAbs, Sizes;
    var sizes := Sizes(samples);
    var found: seq<Spike> := [];
    NoPairs(sizes, threshold);
    if sizes != [] {
      for i := 1 to |sizes|
        invariant found == SpikesOf(sizes[..i], threshold)
      {
        var delta := sizes[i] - sizes[i - 1];
        SpikesSnoc(sizes[..i], threshold, sizes[i]);
        assert sizes[..i + 1] == sizes[..i] + [sizes[i]];
        if Abs(delta) >= threshold {
          found := found + [Spike(sizes[i - 1], sizes[i], delta)];
        }
      }
      assert sizes[..|sizes|] == sizes;
      GrowthBound(sizes, threshold);
    }
    SortKeeps(found);
    spikes := SortByMagnitude(found);
  }
}
