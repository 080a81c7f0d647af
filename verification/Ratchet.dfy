/** The budget ratchets: per-file counts compared with a baseline that only a passing tree renews. */
module Ratchet {
  import opened Sums

  type Counts<K(==)> = map<K, nat>

  ghost function Of<K(!new)>(m: Counts<K>): K -> int {
    k => if k in m then m[k] else 0
  }

  ghost function Total<K(!new)>(m: Counts<K>): int {
    Sum(m.Keys, Of(m))
  }

  /** A total adds up the counts. */
  lemma TotalAddsUp<K(!new)>(m: Counts<K>, k: K)
    ensures k in m ==> Total(m) == m[k] + Total(m - {k})
    ensures m == map[] ==> Total(m) == 0
  {
    if k in m {
      SumRemove(m.Keys, Of(m), k);
      assert (m - {k}).Keys == m.Keys - {k};
      SumEqual(m.Keys - {k}, Of(m), Of(m - {k}));
    }
  }

  // ----- the panic budget

  datatype Baseline<K> = Baseline(total: int, tracked: Counts<K>)

  datatype Regression<K> = TotalGrew | NewFile(path: K) | FileGrew(path: K)

  predicate FilesPass<K(!new)>(b: Baseline<K>, current: Counts<K>) {
    forall k :: k in current ==> k in b.tracked && current[k] <= b.tracked[k]
  }

  ghost predicate Passes<K(!new)>(b: Baseline<K>, current: Counts<K>) {
    Total(current) <= b.total && FilesPass(b, current)
  }

  ghost function Written<K(!new)>(counts: Counts<K>): Baseline<K> {
    Baseline(Total(counts), counts)
  }

  method TotalOf<K(==,!new)>(m: Counts<K>) returns (total: int)
    ensures total == Total(m)
  {
    total := 0;
    var todo := m.Keys;
    ghost var done: set<K> := {};
    while todo != {}
      invariant done !! todo && done + todo == m.Keys
      invariant total == Sum(done, Of(m))
      decreases todo
    {
      var k :| k in todo;
      SumAdd(done, Of(m), k);
      total := total + m[k];
      todo, done := todo - {k}, done + {k};
    }
    assert done == m.Keys;
  }

  method Check<K(==,!new)>(b: Baseline<K>, current: Counts<K>) returns (regressions: seq<Regression<K>>)
    ensures regressions == [] <==> Passes(b, current)
    ensures TotalGrew in regressions <==> Total(current) > b.total
    ensures forall k :: NewFile(k) in regressions <==> k in current && k !in b.tracked
    ensures forall k :: FileGrew(k) in regressions <==> k in current && k in b.tracked && current[k] > b.tracked[k]
  {
    var total := TotalOf(current);
    regressions := if total > b.total then [TotalGrew] else [];
    var todo := current.Keys;
    while todo != {}
      invariant todo <= current.Keys
      invariant regressions == [] <==>
                total <= b.total
                  && forall k :: k in current && k !in todo ==> k in b.tracked && current[k] <= b.tracked[k]
      invariant TotalGrew in regressions <==> total > b.total
      invariant forall k :: NewFile(k) in regressions <==> k in current && k !in todo && k !in b.tracked
      invariant forall k :: FileGrew(k) in regressions <==>
                  k in current && k !in todo && k in b.tracked && current[k] > b.tracked[k]
      decreases todo
    {
      var path :| path in todo;
      if path !in b.tracked {
        regressions := regressions + [NewFile(path)];
      } else if current[path] > b.tracked[path] {
        regressions := regressions + [FileGrew(path)];
      }
      todo := todo - {path};
    }
  }

  lemma TotalMonotone<K(!new)>(a: Counts<K>, b: Counts<K>)
    requires forall k :: k in a ==> k in b && a[k] <= b[k]
    ensures Total(a) <= Total(b)
  {
    SumMonotone(a.Keys, Of(a), Of(b));
    SumSubset(a.Keys, b.Keys, Of(b));
  }

  /** Against a baseline the script wrote, the per-file checks alone decide: without a per-file
      regression the total cannot have grown. */
  lemma FilesDecide<K(!new)>(prior: Counts<K>, current: Counts<K>)
    ensures Passes(Written(prior), current) <==> FilesPass(Written(prior), current)
    ensures FilesPass(Written(prior), current) <==> forall k :: k in current ==> k in prior && current[k] <= prior[k]
    ensures Written(prior).total == Total(prior)
  {
    if FilesPass(Written(prior), current) {
      TotalMonotone(current, prior);
    }
  }

  /** Every tree was checked against the baseline written from the one before. */
  ghost predicate Renewals<K(!new)>(trees: seq<Counts<K>>) {
    forall i :: 0 <= i < |trees| - 1 ==> Passes(Written(trees[i]), trees[i + 1])
  }

  /** Over any run of renewals no count rises, no file becomes tracked again, and no total rises. */
  lemma {:induction false} RatchetHolds<K(!new)>(trees: seq<Counts<K>>, i: nat, j: nat)
    requires Renewals(trees) && i <= j < |trees|
    ensures trees[j].Keys <= trees[i].Keys
    ensures forall k :: k in trees[j] ==> k in trees[i] && trees[j][k] <= trees[i][k]
    ensures Total(trees[j]) <= Total(trees[i])
  {
    if i < j {
      RatchetHolds(trees, i, j - 1);
      assert Passes(Written(trees[j - 1]), trees[j - 1 + 1]);
      TotalMonotone(trees[j], trees[i]);
    }
  }

  // ----- the swallowed-error budget: several patterns per file

  type Table<K(==), P(==)> = map<K, Counts<P>>

  ghost function FileTotals<K(!new), P(!new)>(t: Table<K, P>): K -> int {
    k => if k in t then Total(t[k]) else 0
  }

  ghost function GrandTotal<K(!new), P(!new)>(t: Table<K, P>): int {
    Sum(t.Keys, FileTotals(t))
  }

  ghost function CountOf<K(!new), P(!new)>(t: Table<K, P>, p: P): K -> int {
    k => if k in t && p in t[k] then t[k][p] else 0
  }

  ghost function PatternTotal<K(!new), P(!new)>(t: Table<K, P>, q: P): int {
    Sum(t.Keys, CountOf(t, q))
  }

  /** Totals by file and by pattern add up the rows of the table. */
  lemma TableAddsUp<K(!new), P(!new)>(t: Table<K, P>, k: K, q: P)
    ensures k in t ==> GrandTotal(t) == Total(t[k]) + GrandTotal(t - {k})
    ensures k in t ==> PatternTotal(t, q) == (if q in t[k] then t[k][q] else 0) + PatternTotal(t - {k}, q)
    ensures t == map[] ==> GrandTotal(t) == 0 && PatternTotal(t, q) == 0
  {
    if k in t {
      var rest := t - {k};
      assert rest.Keys == t.Keys - {k};
      SumRemove(t.Keys, FileTotals(t), k);
      SumEqual(rest.Keys, FileTotals(t), FileTotals(rest));
      SumRemove(t.Keys, CountOf(t, q), k);
      SumEqual(rest.Keys, CountOf(t, q), CountOf(rest, q));
    }
  }

  /** For each pattern, its count over the files in `files`. */
  ghost function PatternTotals<K(!new), P(!new)>(t: Table<K, P>, files: set<K>): P -> int {
    p => Sum(files, CountOf(t, p))
  }

  lemma {:induction false} Zeroes<P(!new)>(s: set<P>, f: P -> int)
    requires forall p :: p in s ==> f(p) == 0
    ensures Sum(s, f) == 0
    decreases |s|
  {
    if s != {} {
      var p :| p in s;
      SumRemove(s, f, p);
      Zeroes(s - {p}, f);
    }
  }

  lemma RowTotal<P(!new)>(row: Counts<P>, patterns: set<P>)
    requires row.Keys <= patterns
    ensures Sum(patterns, Of(row)) == Total(row)
  {
    var rest := patterns - row.Keys;
    SumUnion(row.Keys, rest, Of(row));
    assert row.Keys + rest == patterns;
    SumMonotone(rest, Of(row), (p: P) => 0);
    SumNonNegative(rest, Of(row));
    Zeroes(rest, (p: P) => 0);
  }

  /** Adding up by file and adding up by pattern give the same number. */
  lemma {:induction false} ByFileIsByPattern<K(!new), P(!new)>(t: Table<K, P>, files: set<K>, patterns: set<P>)
    requires forall k :: k in files ==> k in t && t[k].Keys <= patterns
    ensures Sum(files, FileTotals(t)) == Sum(patterns, PatternTotals(t, files))
    decreases |files|
  {
    if files == {} {
      Zeroes(patterns, PatternTotals(t, files));
    } else {
      var k :| k in files;
      ByFileIsByPattern(t, files - {k}, patterns);
      SumRemove(files, FileTotals(t), k);
      RowTotal(t[k], patterns);
      forall p | p in patterns ensures PatternTotals(t, files)(p) == Of(t[k])(p) + PatternTotals(t, files - {k})(p) {
        SumRemove(files, CountOf(t, p), k);
      }
      SumPointwise(patterns, Of(t[k]), PatternTotals(t, files - {k}), PatternTotals(t, files));
    }
  }

  method AddRow<P(==,!new)>(before: Counts<P>, row: Counts<P>) returns (totals: Counts<P>)
    ensures totals.Keys == before.Keys + row.Keys
    ensures forall p :: Of(totals)(p) == Of(before)(p) + Of(row)(p)
  {
    totals := before;
    var names := row.Keys;
    while names != {}
      invariant names <= row.Keys && totals.Keys == before.Keys + (row.Keys - names)
      invariant forall p :: Of(totals)(p) == Of(before)(p) + if p in names then 0 else Of(row)(p)
      decreases names
    {
      var p :| p in names;
      totals := totals[p := (if p in totals then totals[p] else 0) + row[p]];
      names := names - {p};
    }
  }

  /** Totals per pattern, starting from zero for the known patterns. */
  method TotalCounts<K(==,!new), P(==,!new)>(t: Table<K, P>, known: set<P>) returns (totals: Counts<P>)
    ensures known <= totals.Keys
    ensures forall p :: p in totals ==> totals[p] == PatternTotal(t, p)
    ensures Total(totals) == GrandTotal(t)
  {
    hide Sum;
    totals := map p | p in known :: 0;
    var todo := t.Keys;
    ghost var done: set<K> := {};
    forall p ensures Of(totals)(p) == 0 == Sum({}, CountOf(t, p)) {
      Zeroes({}, CountOf(t, p));
    }
    while todo != {}
      invariant done !! todo && done + todo == t.Keys
      invariant known <= totals.Keys && forall k :: k in done ==> t[k].Keys <= totals.Keys
      invariant forall p :: Of(totals)(p) == Sum(done, CountOf(t, p))
      decreases todo
    {
      var k :| k in todo;
      totals := AddRow(totals, t[k]);
      forall p ensures Of(totals)(p) == Sum(done + {k}, CountOf(t, p)) {
        SumAdd(done, CountOf(t, p), k);
      }
      todo, done := todo - {k}, done + {k};
    }
    assert done == t.Keys;
    ByFileIsByPattern(t, t.Keys, totals.Keys);
    assert forall p :: p in totals ==> Of(totals)(p) == totals[p];
    SumEqual(totals.Keys, Of(totals), PatternTotals(t, t.Keys));
  }

  ghost predicate TotalsPass<K(!new), P(!new)>(prior: Table<K, P>, current: Table<K, P>) {
    forall k :: k in current ==> k in prior && Total(current[k]) <= Total(prior[k])
  }

  /** The per-file check bounds the grand total. */
  lemma FilesBoundGrandTotal<K(!new), P(!new)>(prior: Table<K, P>, current: Table<K, P>)
    requires TotalsPass(prior, current)
    ensures GrandTotal(current) <= GrandTotal(prior)
  {
    SumMonotone(current.Keys, FileTotals(current), FileTotals(prior));
    forall k | k in prior ensures 0 <= FileTotals(prior)(k) {
      SumNonNegative(prior[k].Keys, Of(prior[k]));
    }
    SumSubset(current.Keys, prior.Keys, FileTotals(prior));
  }

  /** No file has any pattern but `q`. */
  ghost predicate Only<K(!new), P(!new)>(t: Table<K, P>, q: P) {
    forall k, p :: k in t && p in t[k] && p != q ==> t[k][p] == 0
  }

  /** A file's count of one pattern is at most its total ... */
  lemma OneOfTotal<P(!new)>(row: Counts<P>, q: P)
    ensures Of(row)(q) <= Total(row)
  {
    if q in row {
      SumRemove(row.Keys, Of(row), q);
      SumNonNegative(row.Keys - {q}, Of(row));
    } else {
      SumNonNegative(row.Keys, Of(row));
    }
  }

  /** ... equal to it when the others are zero, and less than it when one of them is not. */
  lemma OthersZeroIff<P(!new)>(row: Counts<P>, q: P)
    ensures Of(row)(q) == Total(row) <==> forall p :: p in row && p != q ==> row[p] == 0
  {
    if forall p :: p in row && p != q ==> row[p] == 0 {
      if q in row {
        SumRemove(row.Keys, Of(row), q);
      }
      Zeroes(row.Keys - {q}, Of(row));
      assert q !in row ==> row.Keys - {q} == row.Keys;
    } else {
      var p :| p in row && p != q && row[p] != 0;
      SumRemove(row.Keys, Of(row), p);
      var rest := row.Keys - {p};
      if q in row {
        SumRemove(rest, Of(row), q);
        SumNonNegative(rest - {q}, Of(row));
      } else {
        SumNonNegative(rest, Of(row));
      }
    }
  }

  lemma OnlyBounds<K(!new), P(!new)>(prior: Table<K, P>, q: P, current: Table<K, P>)
    requires Only(prior, q) && TotalsPass(prior, current)
    ensures PatternTotal(current, q) <= PatternTotal(prior, q)
  {
    forall k | k in current ensures CountOf(current, q)(k) <= CountOf(prior, q)(k) {
      OneOfTotal(current[k], q);
      OthersZeroIff(prior[k], q);
    }
    SumMonotone(current.Keys, CountOf(current, q), CountOf(prior, q));
    SumSubset(current.Keys, prior.Keys, CountOf(prior, q));
  }

  /** Otherwise a file can turn all its other patterns into `q` without failing the per-file check. */
  lemma TradeRaises<K(!new), P(!new)>(prior: Table<K, P>, q: P, k: K, p: P) returns (current: Table<K, P>)
    requires k in prior && p in prior[k] && p != q && prior[k][p] != 0
    ensures TotalsPass(prior, current) && PatternTotal(current, q) > PatternTotal(prior, q)
  {
    OneOfTotal(prior[k], q);
    OthersZeroIff(prior[k], q);
    var all: nat := Total(prior[k]);
    var row: Counts<P> := map[q := all];
    current := prior[k := row];
    SumRemove(row.Keys, Of(row), q);
    assert row.Keys - {q} == {};
    assert current.Keys == prior.Keys;
    SumRemove(prior.Keys, CountOf(prior, q), k);
    SumRemove(current.Keys, CountOf(current, q), k);
    SumEqual(prior.Keys - {k}, CountOf(prior, q), CountOf(current, q));
  }

  /** What the separate check per pattern is for: the per-file check bounds the total of pattern `q`
      exactly when no file of the baseline has any other pattern. */
  lemma FilesBoundPatternIff<K(!new), P(!new)>(prior: Table<K, P>, q: P)
    ensures (forall current: Table<K, P> :: TotalsPass(prior, current) ==>
            PatternTotal(current, q) <= PatternTotal(prior, q))
            <==> Only(prior, q)
  {
    if Only(prior, q) {
      forall current: Table<K, P> | TotalsPass(prior, current)
        ensures PatternTotal(current, q) <= PatternTotal(prior, q)
      {
        OnlyBounds(prior, q, current);
      }
    } else {
      var k, p :| k in prior && p in prior[k] && p != q && prior[k][p] != 0;
      var current := TradeRaises(prior, q, k, p);
    }
  }
}
