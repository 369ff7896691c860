/** A pandas DataFrame seen through `data.isnull()`: the column labels and, per
    row, whether each entry is missing. Values themselves play no part in the
    statistics and checks modelled here. */
module Table {

  datatype Frame = Frame(columns: seq<string>, isNull: seq<seq<bool>>)

  /** Every row has one entry per column, as in any DataFrame. */
  predicate Rectangular(f: Frame) {
    forall i :: 0 <= i < |f.isNull| ==> |f.isNull[i]| == |f.columns|
  }

  /** `len(data)`. */
  function Rows(f: Frame): nat {
    |f.isNull|
  }

  predicate AllTrue(bs: seq<bool>) {
    forall k :: 0 <= k < |bs| ==> bs[k]
  }

  /** The number of `True` entries, as `sum()` counts a boolean Series. */
  function CountTrue(bs: seq<bool>): (r: nat)
    ensures r <= |bs|
    ensures r == 0 <==> forall k :: 0 <= k < |bs| ==> !bs[k]
    ensures r == |bs| <==> AllTrue(bs)
  {
    if bs == [] then 0 else (if bs[0] then 1 else 0) + CountTrue(bs[1..])
  }

  /** Column `j` of the missing-mask, top to bottom. */
  function Column(f: Frame, j: nat): (c: seq<bool>)
    requires Rectangular(f) && j < |f.columns|
    ensures |c| == Rows(f)
    ensures forall i :: 0 <= i < |c| ==> c[i] == f.isNull[i][j]
  {
    seq(Rows(f), i requires 0 <= i < Rows(f) => f.isNull[i][j])
  }

  /** `data.isnull().sum()` for column `j`. */
  function MissingInColumn(f: Frame, j: nat): (n: nat)
    requires Rectangular(f) && j < |f.columns|
    ensures n <= Rows(f)
    ensures n == 0 <==> forall i :: 0 <= i < Rows(f) ==> !f.isNull[i][j]
  {
    CountTrue(Column(f, j))
  }

  /** `data.isnull().all()`: per column, vacuously true when there are no rows. */
  function EmptyFeatureMask(f: Frame): (m: seq<bool>)
    requires Rectangular(f)
    ensures |m| == |f.columns|
    ensures forall j :: 0 <= j < |m| ==> m[j] == AllTrue(Column(f, j))
  {
    seq(|f.columns|, j requires 0 <= j < |f.columns| => AllTrue(Column(f, j)))
  }

  /** `data.isnull().all(axis=1)`: per row, vacuously true when there are no columns. */
  function EmptySampleMask(f: Frame): (m: seq<bool>)
    ensures |m| == Rows(f)
    ensures forall i :: 0 <= i < |m| ==> m[i] == AllTrue(f.isNull[i])
  {
    seq(Rows(f), i requires 0 <= i < Rows(f) => AllTrue(f.isNull[i]))
  }

  /** `len(data.columns[data.isnull().all()])`. */
  function EmptyFeatureCount(f: Frame): (n: nat)
    requires Rectangular(f)
    ensures n <= |f.columns|
    ensures n == 0 <==> forall j :: 0 <= j < |f.columns| ==> !AllTrue(Column(f, j))
    ensures n == |f.columns| <==> forall j :: 0 <= j < |f.columns| ==> AllTrue(Column(f, j))
  {
    CountTrue(EmptyFeatureMask(f))
  }

  /** `len(data.index[data.isnull().all(axis=1)])`. */
  function EmptySampleCount(f: Frame): (n: nat)
    ensures n <= Rows(f)
    ensures n == 0 <==> forall i :: 0 <= i < Rows(f) ==> !AllTrue(f.isNull[i])
    ensures n == Rows(f) <==> forall i :: 0 <= i < Rows(f) ==> AllTrue(f.isNull[i])
  {
    CountTrue(EmptySampleMask(f))
  }

  /** A column counts as completely empty exactly when every row misses it. */
  lemma ColumnEmptyIff(f: Frame, j: nat)
    requires Rectangular(f) && j < |f.columns|
    ensures AllTrue(Column(f, j)) <==> MissingInColumn(f, j) == Rows(f)
    ensures MissingInColumn(f, j) <= Rows(f)
  {
  }

  /** With no rows every column is completely empty, and no row is. */
  lemma ZeroRows(f: Frame)
    requires Rectangular(f) && Rows(f) == 0
    ensures EmptyFeatureCount(f) == |f.columns|
    ensures EmptySampleCount(f) == 0
  {
  }

  /** With no columns every row is completely empty, and no column is. */
  lemma ZeroColumns(f: Frame)
    requires Rectangular(f) && |f.columns| == 0
    ensures EmptySampleCount(f) == Rows(f)
    ensures EmptyFeatureCount(f) == 0
  {
  }
}
