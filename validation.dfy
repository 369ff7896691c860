/** `validate_data`: three checks in a fixed order, each adding at most one
    message; the data is valid exactly when no message was collected. */
module Validation {
  import opened Decimal
  import opened Table
  import SampleInfo

  /** `sum(config['dataset']['samples'].values())`: the raw counts, negative
      ones included. */
  function ExpectedSamples(samples: SampleInfo.Samples): (total: int)
    ensures total <= SampleInfo.RowTotal(samples)
    ensures (forall k :: 0 <= k < |samples| ==> samples[k].1 >= 0) ==> total == SampleInfo.RowTotal(samples)
  {
    if samples == [] then 0
    else
      var init := samples[..|samples| - 1];
      assert forall k :: 0 <= k < |init| ==> init[k] == samples[k];
      ExpectedSamples(init) + samples[|samples| - 1].1
  }

  /** A failed check, with the numbers its message reports. */
  datatype Issue =
    | RowCountMismatch(expected: int, got: nat)
    | EmptyFeatures(count: nat)
    | EmptySamples(count: nat)

  /** The position of each check in the fixed order. */
  function Rank(issue: Issue): nat {
    match issue
    case RowCountMismatch(_, _) => 0
    case EmptyFeatures(_) => 1
    case EmptySamples(_) => 2
  }

  /** The message text each check appends. */
  function Message(issue: Issue): (m: string)
    ensures |m| > 0
    ensures m[0] == 'E' <==> issue.RowCountMismatch?
  {
    match issue
    case RowCountMismatch(expected, got) =>
      "Expected " + IntToString(expected) + " samples, got " + NatToString(got)
    case EmptyFeatures(count) => "Found " + NatToString(count) + " completely empty features"
    case EmptySamples(count) => "Found " + NatToString(count) + " completely empty samples"
  }

  function Messages(issues: seq<Issue>): (r: seq<string>)
    ensures |r| == |issues|
    ensures forall k :: 0 <= k < |r| ==> r[k] == Message(issues[k])
  {
    seq(|issues|, k requires 0 <= k < |issues| => Message(issues[k]))
  }

  /** The failed checks, in check order. */
  function Issues(f: Frame, samples: SampleInfo.Samples): (r: seq<Issue>)
    requires Rectangular(f)
    ensures forall k :: 0 <= k < |r| && r[k].RowCountMismatch? ==>
      r[k].expected == ExpectedSamples(samples) && r[k].got == Rows(f) && r[k].expected != r[k].got
    ensures forall k :: 0 <= k < |r| && r[k].EmptyFeatures? ==>
      0 < r[k].count == EmptyFeatureCount(f)
    ensures forall k :: 0 <= k < |r| && r[k].EmptySamples? ==>
      0 < r[k].count == EmptySampleCount(f)
  {
    var expected := ExpectedSamples(samples);
    (if Rows(f) != expected then [RowCountMismatch(expected, Rows(f))] else [])
    + (if EmptyFeatureCount(f) > 0 then [EmptyFeatures(EmptyFeatureCount(f))] else [])
    + (if EmptySampleCount(f) > 0 then [EmptySamples(EmptySampleCount(f))] else [])
  }

  /** The length of the longest prefix of `s` holding no ' '. */
  function SpaceFreePrefix(s: string): (n: nat)
    ensures n <= |s|
  {
    if s == [] || s[0] == ' ' then 0 else 1 + SpaceFreePrefix(s[1..])
  }

  lemma {:induction false} SpaceFreePrefixOf(a: string, t: string)
    requires NoSpace(a) && |t| > 0 && t[0] == ' '
    ensures SpaceFreePrefix(a + t) == |a|
  {
    if a != [] {
      assert (a + t)[1..] == a[1..] + t;
      SpaceFreePrefixOf(a[1..], t);
    } else {
      assert a + t == t;
    }
  }

  /** A message is a fixed prefix, a numeral and a tail starting with ' ';
      the first ' ' after the prefix marks where the numeral ends. */
  lemma SplitAfterPrefix(p: string, a1: string, t1: string, a2: string, t2: string)
    requires NoSpace(a1) && NoSpace(a2)
    requires |t1| > 0 && t1[0] == ' ' && |t2| > 0 && t2[0] == ' '
    requires p + a1 + t1 == p + a2 + t2
    ensures a1 == a2 && t1 == t2
  {
    assert (p + a1 + t1)[|p|..] == a1 + t1;
    assert (p + a2 + t2)[|p|..] == a2 + t2;
    var s := a1 + t1;
    SpaceFreePrefixOf(a1, t1);
    SpaceFreePrefixOf(a2, t2);
    assert a1 == s[..|a1|] && a2 == s[..|a2|];
    assert t1 == s[|a1|..] && t2 == s[|a2|..];
  }

  /** Different row-count failures give different messages. */
  lemma RowCountMessageInjective(e1: int, g1: nat, e2: int, g2: nat)
    requires Message(RowCountMismatch(e1, g1)) == Message(RowCountMismatch(e2, g2))
    ensures e1 == e2 && g1 == g2
  {
    var t1 := " samples, got " + NatToString(g1);
    var t2 := " samples, got " + NatToString(g2);
    SignedNumeralNoSpace(IntToString(e1));
    SignedNumeralNoSpace(IntToString(e2));
    assert Message(RowCountMismatch(e1, g1)) == "Expected " + IntToString(e1) + t1;
    assert Message(RowCountMismatch(e2, g2)) == "Expected " + IntToString(e2) + t2;
    SplitAfterPrefix("Expected ", IntToString(e1), t1, IntToString(e2), t2);
    IntToStringInjective(e1, e2);
    assert t1[14..] == NatToString(g1) && t2[14..] == NatToString(g2);
    NatToStringInjective(g1, g2);
  }

  /** The two "Found" messages: the numeral, then a tail naming the check. */
  lemma FoundMessageInjective(a: Issue, b: Issue)
    requires !a.RowCountMismatch? && !b.RowCountMismatch?
    requires Message(a) == Message(b)
    ensures a == b
  {
    var t1 := if a.EmptyFeatures? then " completely empty features" else " completely empty samples";
    var t2 := if b.EmptyFeatures? then " completely empty features" else " completely empty samples";
    SignedNumeralNoSpace(NatToString(a.count));
    SignedNumeralNoSpace(NatToString(b.count));
    assert Message(a) == "Found " + NatToString(a.count) + t1;
    assert Message(b) == "Found " + NatToString(b.count) + t2;
    SplitAfterPrefix("Found ", NatToString(a.count), t1, NatToString(b.count), t2);
    NatToStringInjective(a.count, b.count);
  }

  /** Different failures give different messages, so the list of messages
      determines which checks failed and the numbers they reported. */
  lemma MessageInjective(a: Issue, b: Issue)
    requires Message(a) == Message(b)
    ensures a == b
  {
    if a.RowCountMismatch? {
      RowCountMessageInjective(a.expected, a.got, b.expected, b.got);
    } else {
      FoundMessageInjective(a, b);
    }
  }

  /** The returned messages determine the failed checks and their numbers. */
  lemma MessagesInjective(x: seq<Issue>, y: seq<Issue>)
    requires Messages(x) == Messages(y)
    ensures x == y
  {
    forall k | 0 <= k < |x| ensures x[k] == y[k] {
      MessageInjective(x[k], y[k]);
    }
  }

  /** `validate_data`, appending to `errors` one check at a time. */
  method ValidateData(f: Frame, samples: SampleInfo.Samples) returns (isValid: bool, errors: seq<string>)
    requires Rectangular(f)
    ensures errors == Messages(Issues(f, samples))
    ensures isValid <==> errors == []
  {
    errors := [];
    var expected := ExpectedSamples(samples);
    if Rows(f) != expected {
      errors := errors + [Message(RowCountMismatch(expected, Rows(f)))];
    }
    var emptyFeatures := EmptyFeatureCount(f);
    if emptyFeatures > 0 {
      errors := errors + [Message(EmptyFeatures(emptyFeatures))];
    }
    var emptySamples := EmptySampleCount(f);
    if emptySamples > 0 {
      errors := errors + [Message(EmptySamples(emptySamples))];
    }
    isValid := |errors| == 0;
  }

  /** Issues come in check order, so each check contributes at most one and
      there are at most three. */
  lemma IssuesInCheckOrder(f: Frame, samples: SampleInfo.Samples)
    requires Rectangular(f)
    ensures forall a, b :: 0 <= a < b < |Issues(f, samples)| ==>
      Rank(Issues(f, samples)[a]) < Rank(Issues(f, samples)[b])
    ensures |Issues(f, samples)| <= 3
  {
  }

  /** There is a row-count issue exactly when `len(data)` differs from the
      configured total, and then it comes first and reports both numbers. */
  lemma RowCountCheck(f: Frame, samples: SampleInfo.Samples)
    requires Rectangular(f)
    ensures (exists k :: 0 <= k < |Issues(f, samples)| && Issues(f, samples)[k].RowCountMismatch?)
      <==> Rows(f) != ExpectedSamples(samples)
    ensures Rows(f) != ExpectedSamples(samples) ==>
      Issues(f, samples)[0] == RowCountMismatch(ExpectedSamples(samples), Rows(f))
  {
    var r := Issues(f, samples);
    if Rows(f) != ExpectedSamples(samples) {
      assert r[0].RowCountMismatch?;
    }
  }

  /** There is an empty-feature issue exactly when some column is missing in
      every row, and it reports how many such columns there are. */
  lemma EmptyFeatureCheck(f: Frame, samples: SampleInfo.Samples)
    requires Rectangular(f)
    ensures (exists k :: 0 <= k < |Issues(f, samples)| && Issues(f, samples)[k].EmptyFeatures?)
      <==> exists j :: 0 <= j < |f.columns| && AllTrue(Column(f, j))
    ensures forall k :: 0 <= k < |Issues(f, samples)| && Issues(f, samples)[k].EmptyFeatures? ==>
      Issues(f, samples)[k].count == EmptyFeatureCount(f)
  {
    var r := Issues(f, samples);
    var m := EmptyFeatureMask(f);
    if exists j :: 0 <= j < |f.columns| && AllTrue(Column(f, j)) {
      var j :| 0 <= j < |f.columns| && AllTrue(Column(f, j));
      assert m[j];
      var k := if Rows(f) != ExpectedSamples(samples) then 1 else 0;
      assert r[k].EmptyFeatures?;
    }
  }

  /** There is an empty-sample issue exactly when some row is missing in every
      column, and it reports how many such rows there are. */
  lemma EmptySampleCheck(f: Frame, samples: SampleInfo.Samples)
    requires Rectangular(f)
    ensures (exists k :: 0 <= k < |Issues(f, samples)| && Issues(f, samples)[k].EmptySamples?)
      <==> exists i :: 0 <= i < Rows(f) && AllTrue(f.isNull[i])
    ensures forall k :: 0 <= k < |Issues(f, samples)| && Issues(f, samples)[k].EmptySamples? ==>
      Issues(f, samples)[k].count == EmptySampleCount(f)
  {
    var r := Issues(f, samples);
    var m := EmptySampleMask(f);
    if exists i :: 0 <= i < Rows(f) && AllTrue(f.isNull[i]) {
      var i :| 0 <= i < Rows(f) && AllTrue(f.isNull[i]);
      assert m[i];
      assert r[|r| - 1].EmptySamples?;
    }
  }

  /** The data is valid exactly when the row count matches, no column is
      entirely missing and no row is entirely missing. */
  lemma ValidIff(f: Frame, samples: SampleInfo.Samples)
    requires Rectangular(f)
    ensures Issues(f, samples) == [] <==>
      && Rows(f) == ExpectedSamples(samples)
      && (forall j :: 0 <= j < |f.columns| ==> !AllTrue(Column(f, j)))
      && (forall i :: 0 <= i < Rows(f) ==> !AllTrue(f.isNull[i]))
  {
  }

  /** With no rows, pandas' vacuous `all()` makes every column completely
      empty: a frame with columns but no rows is never valid. */
  lemma ZeroRowsInvalid(f: Frame, samples: SampleInfo.Samples)
    requires Rectangular(f) && Rows(f) == 0 && |f.columns| > 0
    ensures EmptyFeatures(|f.columns|) in Issues(f, samples)
    ensures !exists k :: 0 <= k < |Issues(f, samples)| && Issues(f, samples)[k].EmptySamples?
  {
  }

  /** With no columns every row is completely empty. */
  lemma ZeroColumnsInvalid(f: Frame, samples: SampleInfo.Samples)
    requires Rectangular(f) && |f.columns| == 0 && Rows(f) > 0
    ensures EmptySamples(Rows(f)) in Issues(f, samples)
    ensures !exists k :: 0 <= k < |Issues(f, samples)| && Issues(f, samples)[k].EmptyFeatures?
  {
  }

  /** The sample table has as many rows as the row-count check expects exactly
      when no configured count is negative: `range` skips a negative count,
      while `sum` subtracts it. */
  lemma {:induction false} TableSizeMatchesExpected(samples: SampleInfo.Samples)
    ensures SampleInfo.RowTotal(samples) >= ExpectedSamples(samples)
    ensures SampleInfo.RowTotal(samples) == ExpectedSamples(samples) <==>
      forall k :: 0 <= k < |samples| ==> samples[k].1 >= 0
  {
    if samples != [] {
      var init := samples[..|samples| - 1];
      TableSizeMatchesExpected(init);
      assert forall k :: 0 <= k < |init| ==> init[k] == samples[k];
    }
  }

  /** A frame with one row per generated sample passes the row-count check
      exactly when no configured count is negative. */
  lemma SampleTablePassesRowCount(f: Frame, samples: SampleInfo.Samples, colors: map<string, string>)
    requires Rectangular(f) && Rows(f) == |SampleInfo.SampleTable(samples, colors)|
    ensures (forall k :: 0 <= k < |Issues(f, samples)| ==> !Issues(f, samples)[k].RowCountMismatch?)
      <==> forall k :: 0 <= k < |samples| ==> samples[k].1 >= 0
  {
    TableSizeMatchesExpected(samples);
    RowCountCheck(f, samples);
  }
}
