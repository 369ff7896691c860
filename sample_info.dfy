/** The sample-information table built from the configuration: for each group
    of `dataset.samples`, in the configured order, `count` rows
    `{sample_id: "<group>_<i>", group, color}` with i = 1 .. count, and the
    colour taken from `visualization.colors` or a neutral default. */
module SampleInfo {
  import opened Decimal

  datatype Option<T> = None | Some(value: T)

  /** `dataset.samples`: the ordered mapping from group name to sample count. */
  type Samples = seq<(string, int)>

  /** Colour of a group that `visualization.colors` does not name. */
  const DEFAULT_COLOR: string := "#999999"

  datatype SampleRow = SampleRow(sampleId: string, group: string, color: string)

  /** The keys of a Python dict are distinct. */
  predicate DistinctGroups(samples: Samples) {
    forall a, b :: 0 <= a < b < |samples| ==> samples[a].0 != samples[b].0
  }

  /** The number of values `range(count)` yields: none when `count <= 0`. */
  function RangeLength(count: int): (n: nat)
    ensures n >= count
    ensures n == 0 <==> count <= 0
    ensures count >= 0 ==> n == count
  {
    if count < 0 then 0 else count
  }

  /** `colors.get(group, '#999999')`. */
  function ColorOf(colors: map<string, string>, group: string): (c: string)
    ensures group in colors ==> c == colors[group]
    ensures group !in colors ==> c == DEFAULT_COLOR
    ensures c in colors.Values || c == DEFAULT_COLOR
  {
    if group in colors then colors[group] else DEFAULT_COLOR
  }

  /** `f"{group}_{index}"`. */
  function SampleId(group: string, index: nat): (id: string)
    ensures |id| > |group| + 1
    ensures id[..|group|] == group && id[|group|] == '_'
    ensures id[|group| + 1..] == NatToString(index)
  {
    group + "_" + NatToString(index)
  }

  /** The position of the last `c` in `s`, if any. */
  function LastIndexOf(s: string, c: char): (r: Option<nat>)
    ensures r.Some? ==> r.value < |s| && s[r.value] == c
    ensures r.Some? ==> forall k :: r.value < k < |s| ==> s[k] != c
    ensures r.None? ==> forall k :: 0 <= k < |s| ==> s[k] != c
  {
    if s == [] then None
    else if s[|s| - 1] == c then Some(|s| - 1)
    else LastIndexOf(s[..|s| - 1], c)
  }

  /** Splits a sample id at its last '_' into the group and the index. */
  function ParseSampleId(id: string): Option<(string, nat)> {
    match LastIndexOf(id, '_')
    case None => None
    case Some(p) =>
      var digits := id[p + 1..];
      if digits != [] && AllDigits(digits) then Some((id[..p], ParseNat(digits))) else None
  }

  /** A sample id determines its group and index, whatever characters the
      group name holds: the index is all digits, so the separator is the last
      '_' of the id. */
  lemma ParseSampleIdRoundTrip(group: string, index: nat)
    ensures ParseSampleId(SampleId(group, index)) == Some((group, index))
  {
    var id := SampleId(group, index);
    var digits := NatToString(index);
    assert id[|group|] == '_';
    assert forall k :: |group| < k < |id| ==> id[k] == digits[k - |group| - 1];
    assert LastIndexOf(id, '_') == Some(|group|);
    assert id[|group| + 1..] == digits;
    assert id[..|group|] == group;
    ParseNatToString(index);
  }

  lemma SampleIdInjective(g1: string, i1: nat, g2: string, i2: nat)
    requires SampleId(g1, i1) == SampleId(g2, i2)
    ensures g1 == g2 && i1 == i2
  {
    ParseSampleIdRoundTrip(g1, i1);
    ParseSampleIdRoundTrip(g2, i2);
  }

  /** The row the inner loop appends for 0-based iteration `i` of `group`. */
  function MakeRow(group: string, i: nat, colors: map<string, string>): SampleRow {
    SampleRow(SampleId(group, i + 1), group, ColorOf(colors, group))
  }

  /** The rows of one group, in loop order. */
  function GroupRows(group: string, count: int, colors: map<string, string>): (r: seq<SampleRow>)
    ensures |r| == RangeLength(count)
    ensures forall i :: 0 <= i < |r| ==> r[i] == MakeRow(group, i, colors)
  {
    seq(RangeLength(count), i requires 0 <= i < RangeLength(count) => MakeRow(group, i, colors))
  }

  /** The sum of the counts, a count of 0 or less contributing nothing. */
  function RowTotal(samples: Samples): nat {
    if samples == [] then 0
    else RowTotal(samples[..|samples| - 1]) + RangeLength(samples[|samples| - 1].1)
  }

  predicate IsGroup(samples: Samples, group: string) {
    exists k :: 0 <= k < |samples| && samples[k].0 == group
  }

  /** The table `get_sample_info` returns, one group after another. */
  function SampleTable(samples: Samples, colors: map<string, string>): (r: seq<SampleRow>)
    ensures |r| == RowTotal(samples)
    ensures forall p :: 0 <= p < |r| ==> IsGroup(samples, r[p].group)
    ensures forall p :: 0 <= p < |r| ==> r[p].color == ColorOf(colors, r[p].group)
  {
    if samples == [] then []
    else
      var init := samples[..|samples| - 1];
      var last := samples[|samples| - 1];
      var r := SampleTable(init, colors) + GroupRows(last.0, last.1, colors);
      assert forall p :: 0 <= p < |r| ==> IsGroup(samples, r[p].group) by {
        forall p | 0 <= p < |r| ensures IsGroup(samples, r[p].group) {
          if p < |SampleTable(init, colors)| {
            var k :| 0 <= k < |init| && init[k].0 == r[p].group;
            assert samples[k] == init[k];
          } else {
            assert samples[|samples| - 1].0 == r[p].group;
          }
        }
      }
      r
  }

  /** The position of the first row of group `k`. */
  function Offset(samples: Samples, k: nat): nat
    requires k <= |samples|
  {
    RowTotal(samples[..k])
  }

  lemma OffsetNext(samples: Samples, k: nat)
    requires k < |samples|
    ensures Offset(samples, k + 1) == Offset(samples, k) + RangeLength(samples[k].1)
  {
    assert samples[..k + 1][..k] == samples[..k];
  }

  /** Row `i` of group `k` sits at `Offset(samples, k) + i` and carries id
      `<group>_<i + 1>`, the group, and the group's colour. */
  lemma {:induction false} RowAt(samples: Samples, colors: map<string, string>, k: nat, i: nat)
    requires k < |samples| && i < RangeLength(samples[k].1)
    ensures Offset(samples, k) + i < |SampleTable(samples, colors)|
    ensures SampleTable(samples, colors)[Offset(samples, k) + i] == MakeRow(samples[k].0, i, colors)
  {
    var init := samples[..|samples| - 1];
    OffsetNext(samples, k);
    if k == |samples| - 1 {
      assert samples[..k] == init;
    } else {
      RowAt(init, colors, k, i);
      assert init[..k] == samples[..k];
      OffsetNext(init, k);
      OffsetNext(samples, |samples| - 1);
    }
  }

  /** Every row is row `i` of some group `k`. */
  lemma {:induction false} RowCovered(samples: Samples, colors: map<string, string>, p: nat)
    returns (k: nat, i: nat)
    requires p < |SampleTable(samples, colors)|
    ensures k < |samples| && i < RangeLength(samples[k].1)
    ensures p == Offset(samples, k) + i
    ensures SampleTable(samples, colors)[p] == MakeRow(samples[k].0, i, colors)
  {
    var init := samples[..|samples| - 1];
    var n := |SampleTable(init, colors)|;
    if p < n {
      k, i := RowCovered(init, colors, p);
      assert init[..k] == samples[..k];
    } else {
      k, i := |samples| - 1, p - n;
      assert samples[..k] == init;
    }
  }

  /** With distinct group names, no two rows share a sample id. */
  lemma SampleIdsUnique(samples: Samples, colors: map<string, string>)
    requires DistinctGroups(samples)
    ensures forall p, q :: 0 <= p < q < |SampleTable(samples, colors)| ==>
      SampleTable(samples, colors)[p].sampleId != SampleTable(samples, colors)[q].sampleId
  {
    var t := SampleTable(samples, colors);
    forall p, q | 0 <= p < q < |t| ensures t[p].sampleId != t[q].sampleId {
      var k1, i1 := RowCovered(samples, colors, p);
      var k2, i2 := RowCovered(samples, colors, q);
      if t[p].sampleId == t[q].sampleId {
        SampleIdInjective(samples[k1].0, i1 + 1, samples[k2].0, i2 + 1);
        assert false;
      }
    }
  }

  /** `get_sample_info`: two nested loops appending one row at a time. */
  method GetSampleInfo(samples: Samples, colors: map<string, string>) returns (info: seq<SampleRow>)
    ensures info == SampleTable(samples, colors)
  {
    info := [];
    var k := 0;
    while k < |samples|
      invariant 0 <= k <= |samples|
      invariant info == SampleTable(samples[..k], colors)
    {
      var (group, count) := samples[k];
      var i := 0;
      while i < count
        invariant 0 <= i <= RangeLength(count)
        invariant info == SampleTable(samples[..k], colors) + GroupRows(group, count, colors)[..i]
      {
        info := info + [SampleRow(SampleId(group, i + 1), group, ColorOf(colors, group))];
        i := i + 1;
      }
      assert GroupRows(group, count, colors)[..i] == GroupRows(group, count, colors);
      assert samples[..k + 1][..k] == samples[..k];
      k := k + 1;
    }
    assert samples[..|samples|] == samples;
  }
}
