/** `calculate_missing_percentage`: one row `{feature, n_missing, pct_missing}`
    per column, `pct_missing = n_missing / len(data) * 100`, then sorted by
    `pct_missing`, largest first. Each row keeps its pre-sort index label,
    the column's position. The percentage is an exact `real`. */
module MissingStats {
  import opened Table

  /** `index` is the row label the statistics frame keeps through the sort:
      the position of the column in `data.columns`. */
  datatype MissingStat = MissingStat(index: nat, feature: string, nMissing: nat, pctMissing: real)

  /** `n / rows * 100`. */
  function Percent(n: nat, rows: nat): (pct: real)
    requires rows > 0
    ensures pct * rows as real == 100.0 * n as real
    ensures pct >= 0.0
  {
    n as real / rows as real * 100.0
  }

  lemma PercentBounds(n: nat, rows: nat)
    requires rows > 0 && n <= rows
    ensures 0.0 <= Percent(n, rows) <= 100.0
  {
  }

  /** For a fixed row count the percentage orders columns exactly as the
      missing counts do, so sorting on either gives the same order. */
  lemma PercentMonotone(m: nat, n: nat, rows: nat)
    requires rows > 0
    ensures Percent(m, rows) <= Percent(n, rows) <==> m <= n
  {
  }

  /** The statistics row of column `j`, before sorting. */
  function ColumnStat(f: Frame, j: nat): (s: MissingStat)
    requires Rectangular(f) && Rows(f) > 0 && j < |f.columns|
    ensures s.index == j && s.feature == f.columns[j]
    ensures s.nMissing <= Rows(f)
    ensures s.nMissing == 0 <==> forall i :: 0 <= i < Rows(f) ==> !f.isNull[i][j]
    ensures s.nMissing == Rows(f) <==> AllTrue(Column(f, j))
    ensures s.pctMissing * Rows(f) as real == 100.0 * s.nMissing as real
    ensures 0.0 <= s.pctMissing <= 100.0
  {
    var n := MissingInColumn(f, j);
    PercentBounds(n, Rows(f));
    MissingStat(j, f.columns[j], n, Percent(n, Rows(f)))
  }

  /** The statistics frame in column order, as the constructor builds it. */
  function ColumnStats(f: Frame): (r: seq<MissingStat>)
    requires Rectangular(f) && Rows(f) > 0
    ensures |r| == |f.columns|
    ensures forall j :: 0 <= j < |r| ==> r[j] == ColumnStat(f, j)
  {
    seq(|f.columns|, j requires 0 <= j < |f.columns| => ColumnStat(f, j))
  }

  function Features(s: seq<MissingStat>): (r: seq<string>)
    ensures |r| == |s|
    ensures forall k :: 0 <= k < |s| ==> r[k] == s[k].feature
  {
    seq(|s|, k requires 0 <= k < |s| => s[k].feature)
  }

  lemma FeaturesCons(x: MissingStat, s: seq<MissingStat>)
    ensures Features([x] + s) == [x.feature] + Features(s)
  {
  }

  predicate NonIncreasing(s: seq<MissingStat>) {
    forall i, j :: 0 <= i < j < |s| ==> s[i].pctMissing >= s[j].pctMissing
  }

  /** Places `x` in front of the first row whose percentage it reaches. */
  function Insert(x: MissingStat, s: seq<MissingStat>): (r: seq<MissingStat>)
    ensures |r| == |s| + 1
    ensures multiset(r) == multiset(s) + multiset{x}
    ensures multiset(Features(r)) == multiset(Features(s)) + multiset{x.feature}
  {
    FeaturesCons(x, s);
    if s == [] || x.pctMissing >= s[0].pctMissing then
      [x] + s
    else
      var rest := Insert(x, s[1..]);
      FeaturesCons(s[0], rest);
      FeaturesCons(s[0], s[1..]);
      assert s == [s[0]] + s[1..];
      [s[0]] + rest
  }

  lemma {:induction false} InsertNonIncreasing(x: MissingStat, s: seq<MissingStat>)
    requires NonIncreasing(s)
    ensures NonIncreasing(Insert(x, s))
  {
    if s != [] && x.pctMissing < s[0].pctMissing {
      var rest := Insert(x, s[1..]);
      InsertNonIncreasing(x, s[1..]);
      forall k | 0 <= k < |rest| ensures s[0].pctMissing >= rest[k].pctMissing {
        assert rest[k] in multiset(rest);
        if rest[k] != x {
          assert rest[k] in multiset(s[1..]);
          var m :| 0 <= m < |s[1..]| && s[1..][m] == rest[k];
          assert s[m + 1] == rest[k];
        }
      }
      assert Insert(x, s) == [s[0]] + rest;
    }
  }

  /** Sorts by percentage, largest first. Ties may come out in any order:
      pandas' default sort is not stable, so nothing is promised about them. */
  function SortDescending(s: seq<MissingStat>): (r: seq<MissingStat>)
    ensures |r| == |s|
    ensures multiset(r) == multiset(s)
    ensures multiset(Features(r)) == multiset(Features(s))
    ensures NonIncreasing(r)
  {
    if s == [] then []
    else
      FeaturesCons(s[0], s[1..]);
      assert s == [s[0]] + s[1..];
      InsertNonIncreasing(s[0], SortDescending(s[1..]));
      Insert(s[0], SortDescending(s[1..]))
  }

  /** `calculate_missing_percentage` on a frame with at least one row. */
  function CalculateMissingPercentage(f: Frame): (r: seq<MissingStat>)
    requires Rectangular(f) && Rows(f) > 0
    ensures |r| == |f.columns|
    ensures NonIncreasing(r)
    ensures multiset(r) == multiset(ColumnStats(f))
    ensures multiset(Features(r)) == multiset(f.columns)
  {
    assert Features(ColumnStats(f)) == f.columns;
    SortDescending(ColumnStats(f))
  }

  /** Each output row is the row of some column, with `0 <= n_missing <= rows`,
      `pct_missing = 100 * n_missing / rows`, and `0 <= pct_missing <= 100`. */
  lemma StatsAreColumnStats(f: Frame, k: nat) returns (j: nat)
    requires Rectangular(f) && Rows(f) > 0 && k < |f.columns|
    ensures j < |f.columns| && j == CalculateMissingPercentage(f)[k].index
    ensures CalculateMissingPercentage(f)[k] == ColumnStat(f, j)
    ensures CalculateMissingPercentage(f)[k].feature == f.columns[j]
    ensures CalculateMissingPercentage(f)[k].nMissing == MissingInColumn(f, j) <= Rows(f)
    ensures CalculateMissingPercentage(f)[k].pctMissing == Percent(MissingInColumn(f, j), Rows(f))
    ensures 0.0 <= CalculateMissingPercentage(f)[k].pctMissing <= 100.0
  {
    var r := CalculateMissingPercentage(f);
    var c := ColumnStats(f);
    assert r[k] in multiset(c);
    j :| 0 <= j < |c| && c[j] == r[k];
  }

  /** Every column's row appears in the output. */
  lemma EveryColumnReported(f: Frame, j: nat)
    requires Rectangular(f) && Rows(f) > 0 && j < |f.columns|
    ensures ColumnStat(f, j) in CalculateMissingPercentage(f)
  {
    assert ColumnStats(f)[j] in multiset(ColumnStats(f));
  }

  /** The output is also ordered by the missing count, largest first. */
  lemma OrderedByMissingCount(f: Frame)
    requires Rectangular(f) && Rows(f) > 0
    ensures forall a, b :: 0 <= a < b < |f.columns| ==>
      CalculateMissingPercentage(f)[a].nMissing >= CalculateMissingPercentage(f)[b].nMissing
  {
    var r := CalculateMissingPercentage(f);
    forall a, b | 0 <= a < b < |f.columns| ensures r[a].nMissing >= r[b].nMissing {
      var ja := StatsAreColumnStats(f, a);
      var jb := StatsAreColumnStats(f, b);
      PercentMonotone(r[b].nMissing, r[a].nMissing, Rows(f));
    }
  }
}
