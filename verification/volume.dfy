/** Volume correction: the accumulated-volume file is read in file order (it
    is not sorted), scanned from its last row back to its first keeping every
    row that is at least the last kept one, and the kept rows are reversed.
    The first row of the file is put into the output list before the scan,
    so after the reversal it is the final row of the output. */
module VolumeCorrection {
  import opened Series
  import LevelCorrection

  /** The backward scan over positions `k - 1` down to 0, with `threshold`
      the value of the last kept row; rows are listed in the order the scan
      keeps them (latest position first). */
  function BackScan(s: seq<Sample>, k: nat, threshold: real): (r: seq<Sample>)
    requires k <= |s|
    ensures |r| <= k
    ensures |r| > 0 ==> r[0].value >= threshold
    decreases k
  {
    if k == 0 then []
    else if s[k - 1].value >= threshold then [s[k - 1]] + BackScan(s, k - 1, s[k - 1].value)
    else BackScan(s, k - 1, threshold)
  }

  /** Every row the backward scan keeps is at least the one kept before it. */
  lemma {:induction false} BackScanRises(s: seq<Sample>, k: nat, threshold: real)
    requires k <= |s|
    ensures forall x :: x in BackScan(s, k, threshold) ==> threshold <= x.value
    ensures ValuesNonDecreasing(BackScan(s, k, threshold))
    decreases k
  {
    if k > 0 {
      if s[k - 1].value >= threshold {
        BackScanRises(s, k - 1, s[k - 1].value);
      } else {
        BackScanRises(s, k - 1, threshold);
      }
    }
  }

  /** Position `i` is a suffix maximum: no later row is higher. */
  predicate IsSuffixMax(s: seq<Sample>, i: nat)
    requires i < |s|
  {
    forall j :: i < j < |s| ==> s[j].value <= s[i].value
  }

  function SuffixMaxMask(s: seq<Sample>): (m: seq<bool>)
    ensures |m| == |s|
    ensures forall i :: 0 <= i < |s| ==> (m[i] <==> IsSuffixMax(s, i))
  {
    seq(|s|, i requires 0 <= i < |s| => IsSuffixMax(s, i))
  }

  /** The rows the backward scan keeps, back in file order. */
  function BackwardKept(s: seq<Sample>): (r: seq<Sample>)
    requires |s| > 0
    ensures r == Select(s, SuffixMaxMask(s))
    ensures |r| >= 1 && r[|r| - 1] == s[|s| - 1]
    ensures ValuesNonIncreasing(r)
  {
    var b := BackScan(s, |s|, s[|s| - 1].value);
    assert b[0] == s[|s| - 1];
    BackScanSelectsSuffixMaxima(s);
    BackScanRises(s, |s|, s[|s| - 1].value);
    ReverseFlipsOrder(b);
    Reverse(b)
  }

  /** The corrected volume file. An empty table has no first row to force in. */
  function CorrectVolumes(s: seq<Sample>): (r: Result<seq<Sample>>)
    ensures r.Err? <==> |s| == 0
    ensures r.Err? ==> r.error == EmptySeries
    ensures r.Ok? ==> r.value == Select(s, SuffixMaxMask(s)) + [s[0]]
    ensures r.Ok? ==> |r.value| == Count(SuffixMaxMask(s)) + 1 && |r.value| >= 2
    ensures r.Ok? ==> r.value[|r.value| - 1] == s[0]
    ensures r.Ok? ==> r.value[|r.value| - 2] == s[|s| - 1]
    ensures r.Ok? ==> ValuesNonIncreasing(r.value[..|r.value| - 1])
  {
    if |s| == 0 then Err(EmptySeries)
    else
      var b := BackScan(s, |s|, s[|s| - 1].value);
      ReverseConcat([s[0]], b);
      var out := Reverse([s[0]] + b);
      var kept := BackwardKept(s);
      assert out[..|out| - 1] == kept;
      Ok(out)
  }

  /** While the threshold is the maximum of the rows after position `k`,
      the scan keeps exactly the suffix maxima among the first `k` rows. */
  lemma {:induction false} BackScanFromMaximum(s: seq<Sample>, k: nat, threshold: real, at: nat)
    requires k <= |s|
    requires k <= at < |s| || (k == |s| && at == |s| - 1)
    requires at < |s| && s[at].value == threshold
    requires forall j :: k <= j < |s| ==> s[j].value <= threshold
    ensures Reverse(BackScan(s, k, threshold)) == Select(s[..k], SuffixMaxMask(s)[..k])
    decreases k
  {
    if k > 0 {
      var keep := s[k - 1].value >= threshold;
      var next := if keep then s[k - 1].value else threshold;
      SuffixMaxIffAboveMaximum(s, k - 1, threshold, at);
      assert forall j :: k - 1 <= j < |s| ==> s[j].value <= next;
      BackScanFromMaximum(s, k - 1, next, if keep then k - 1 else at);
      BackScanStep(s, k, threshold);
    }
  }

  /** With `threshold` the maximum of the rows after `i`, the row at `i` is a
      suffix maximum iff it reaches the threshold. */
  lemma SuffixMaxIffAboveMaximum(s: seq<Sample>, i: nat, threshold: real, at: nat)
    requires i <= at < |s| && s[at].value == threshold
    requires forall j :: i < j < |s| ==> s[j].value <= threshold
    ensures SuffixMaxMask(s)[i] == (s[i].value >= threshold)
  {
    if s[i].value < threshold {
      assert s[at].value > s[i].value;
    }
  }

  /** One step of the backward scan, read in file order: the row at `k - 1`
      is appended after the rows the rest of the scan keeps. */
  lemma BackScanStep(s: seq<Sample>, k: nat, threshold: real)
    requires 0 < k <= |s|
    requires SuffixMaxMask(s)[k - 1] == (s[k - 1].value >= threshold)
    requires var next := if s[k - 1].value >= threshold then s[k - 1].value else threshold;
      Reverse(BackScan(s, k - 1, next)) == Select(s[..k - 1], SuffixMaxMask(s)[..k - 1])
    ensures Reverse(BackScan(s, k, threshold)) == Select(s[..k], SuffixMaxMask(s)[..k])
  {
    var m := SuffixMaxMask(s);
    var x := s[k - 1];
    var keep := x.value >= threshold;
    var next := if keep then x.value else threshold;
    var rest := BackScan(s, k - 1, next);
    var front: seq<Sample> := if keep then [x] else [];
    assert BackScan(s, k, threshold) == front + rest;
    ReverseConcat(front, rest);
    assert Reverse(front) == front;
    SelectAppend(s[..k - 1], m[..k - 1], x, m[k - 1]);
    PrefixSnoc(s, k);
    PrefixSnoc(m, k);
  }

  /** A row survives the backward scan iff it is at least every later row;
      the last row always survives, the threshold starting at its own value. */
  lemma BackScanSelectsSuffixMaxima(s: seq<Sample>)
    requires |s| > 0
    ensures Reverse(BackScan(s, |s|, s[|s| - 1].value)) == Select(s, SuffixMaxMask(s))
  {
    var m := SuffixMaxMask(s);
    assert s[..|s|] == s;
    assert m[..|s|] == m;
    BackScanFromMaximum(s, |s|, s[|s| - 1].value, |s| - 1);
  }

  /** The backward scan is the forward scan of the level correction run over
      the file read back to front. */
  lemma {:induction false} BackScanIsReversedScan(s: seq<Sample>, k: nat, threshold: real)
    requires k <= |s|
    ensures BackScan(s, k, threshold) == LevelCorrection.Scan(Reverse(s), |s| - k, threshold)
    decreases k
  {
    if k > 0 {
      var rs := Reverse(s);
      var x := s[k - 1];
      assert rs[|s| - k] == x;
      if x.value >= threshold {
        BackScanIsReversedScan(s, k - 1, x.value);
        assert LevelCorrection.Scan(rs, |s| - k, threshold)
            == [x] + LevelCorrection.Scan(rs, |s| - k + 1, x.value);
      } else {
        BackScanIsReversedScan(s, k - 1, threshold);
        assert LevelCorrection.Scan(rs, |s| - k, threshold)
            == LevelCorrection.Scan(rs, |s| - k + 1, threshold);
      }
    }
  }

  /** Forward/backward symmetry: reversing the file, running the forward
      running-maximum filter and reversing back gives the rows the backward
      scan keeps. */
  lemma BackwardIsMirroredForward(s: seq<Sample>)
    requires |s| > 0
    ensures BackwardKept(s) == Reverse(LevelCorrection.RunningMaxFilter(Reverse(s)))
  {
    BackScanIsReversedScan(s, |s|, s[|s| - 1].value);
  }

  /** The first row is output twice, at both ends, when it is itself at least
      every later row. */
  lemma FirstRowTwiceWhenSuffixMaximum(s: seq<Sample>)
    requires |s| > 0
    requires IsSuffixMax(s, 0)
    ensures var out := CorrectVolumes(s).value;
      out[0] == s[0] && out[|out| - 1] == s[0]
  {
    var m := SuffixMaxMask(s);
    assert Select(s, m) == [s[0]] + Select(s[1..], m[1..]);
  }

  /** A one-row file comes out as two copies of that row. */
  lemma SingleRowDoubled(x: Sample)
    ensures CorrectVolumes([x]) == Ok([x, x])
  {
    var m := SuffixMaxMask([x]);
    assert IsSuffixMax([x], 0);
    SelectAll([x], m);
    var r := CorrectVolumes([x]);
    assert r.Ok? && r.value == [x] + [x];
    assert [x] + [x] == [x, x];
  }

  /** The file order is trusted: rows out of time order stay out of order. */
  lemma NoSortBeforeScan()
    ensures CorrectVolumes([Sample(120, 5.0), Sample(60, 3.0)])
         == Ok([Sample(120, 5.0), Sample(60, 3.0), Sample(120, 5.0)])
  {
    var s := [Sample(120, 5.0), Sample(60, 3.0)];
    var m := SuffixMaxMask(s);
    assert IsSuffixMax(s, 0) && IsSuffixMax(s, 1);
    SelectAll(s, m);
    var r := CorrectVolumes(s);
    assert r.Ok? && r.value == s + [s[0]];
    assert s + [s[0]] == [Sample(120, 5.0), Sample(60, 3.0), Sample(120, 5.0)];
  }
}
