/** Level correction: the water-level series is put in time order and every
    reading that falls below the highest level seen so far is dropped, so the
    corrected level never decreases. */
module LevelCorrection {
  import opened Series

  /** The scan of the sorted series from position `k` on, with `threshold`
      the value of the last kept reading: a reading is kept when it is at
      least the threshold, and then becomes the threshold. */
  function Scan(s: seq<Sample>, k: nat, threshold: real): (r: seq<Sample>)
    requires k <= |s|
    ensures |r| <= |s| - k
    ensures |r| > 0 ==> r[0].value >= threshold
    decreases |s| - k
  {
    if k == |s| then []
    else if s[k].value >= threshold then [s[k]] + Scan(s, k + 1, s[k].value)
    else Scan(s, k + 1, threshold)
  }

  /** Every reading the scan keeps is at least the one kept before it. */
  lemma {:induction false} ScanRises(s: seq<Sample>, k: nat, threshold: real)
    requires k <= |s|
    ensures forall x :: x in Scan(s, k, threshold) ==> threshold <= x.value
    ensures ValuesNonDecreasing(Scan(s, k, threshold))
    decreases |s| - k
  {
    if k < |s| {
      if s[k].value >= threshold {
        ScanRises(s, k + 1, s[k].value);
      } else {
        ScanRises(s, k + 1, threshold);
      }
    }
  }

  /** Position `i` holds a running maximum: no earlier reading is higher. */
  predicate IsRecord(s: seq<Sample>, i: nat)
    requires i < |s|
  {
    forall j :: 0 <= j < i ==> s[j].value <= s[i].value
  }

  function RecordMask(s: seq<Sample>): (m: seq<bool>)
    ensures |m| == |s|
    ensures forall i :: 0 <= i < |s| ==> (m[i] <==> IsRecord(s, i))
  {
    seq(|s|, i requires 0 <= i < |s| => IsRecord(s, i))
  }

  /** The filter of the sorted series: the threshold starts at the first
      reading, which the scan therefore keeps. */
  function RunningMaxFilter(s: seq<Sample>): (r: seq<Sample>)
    requires |s| > 0
    ensures r == Select(s, RecordMask(s))
    ensures |r| >= 1 && r[0] == s[0]
    ensures ValuesNonDecreasing(r)
  {
    ScanSelectsRecords(s);
    ScanRises(s, 0, s[0].value);
    Scan(s, 0, s[0].value)
  }

  /** The corrected level file: sorted by instant, then filtered. An empty
      table has no first row to take the threshold from. */
  function CorrectLevels(raw: seq<Sample>): (r: Result<seq<Sample>>)
    ensures r.Err? <==> |raw| == 0
    ensures r.Err? ==> r.error == EmptySeries
    ensures r.Ok? ==> TimeSorted(r.value) && ValuesNonDecreasing(r.value)
    ensures r.Ok? ==> multiset(r.value) <= multiset(raw) && |r.value| >= 1
    ensures r.Ok? ==> r.value == Select(SortByTime(raw), RecordMask(SortByTime(raw)))
  {
    if |raw| == 0 then Err(EmptySeries)
    else
      var sorted := SortByTime(raw);
      SelectKeepsTimeOrder(sorted, RecordMask(sorted));
      SelectIsSubMultiset(sorted, RecordMask(sorted));
      Ok(RunningMaxFilter(sorted))
  }

  /** Once past the first reading, the threshold is the maximum of the
      readings scanned so far, so the scan keeps exactly the running maxima. */
  lemma {:induction false} ScanFromMaximum(s: seq<Sample>, k: nat, threshold: real, at: nat)
    requires 1 <= k <= |s|
    requires at < k && s[at].value == threshold
    requires forall j :: 0 <= j < k ==> s[j].value <= threshold
    ensures Scan(s, k, threshold) == Select(s[k..], RecordMask(s)[k..])
    decreases |s| - k
  {
    if k < |s| {
      var keep := s[k].value >= threshold;
      var next := if keep then s[k].value else threshold;
      RecordIffAboveMaximum(s, k, threshold, at);
      assert forall j :: 0 <= j < k + 1 ==> s[j].value <= next;
      ScanFromMaximum(s, k + 1, next, if keep then k else at);
      ScanStep(s, k, threshold);
    }
  }

  /** With `threshold` the maximum of the readings before `k`, the reading
      at `k` is a running maximum iff it reaches the threshold. */
  lemma RecordIffAboveMaximum(s: seq<Sample>, k: nat, threshold: real, at: nat)
    requires k < |s|
    requires at < k && s[at].value == threshold
    requires forall j :: 0 <= j < k ==> s[j].value <= threshold
    ensures RecordMask(s)[k] == (s[k].value >= threshold)
  {
    if s[k].value < threshold {
      assert s[at].value > s[k].value;
    }
  }

  /** One step of the scan: the reading at `k` is put before the readings
      the rest of the scan keeps. */
  lemma ScanStep(s: seq<Sample>, k: nat, threshold: real)
    requires k < |s|
    requires RecordMask(s)[k] == (s[k].value >= threshold)
    requires var next := if s[k].value >= threshold then s[k].value else threshold;
      Scan(s, k + 1, next) == Select(s[k + 1..], RecordMask(s)[k + 1..])
    ensures Scan(s, k, threshold) == Select(s[k..], RecordMask(s)[k..])
  {
    SelectSuffix(s, RecordMask(s), k);
  }

  /** A reading survives the scan exactly when it is at least every reading
      before it; ties are kept, and the first reading always is. */
  lemma ScanSelectsRecords(s: seq<Sample>)
    requires |s| > 0
    ensures Scan(s, 0, s[0].value) == Select(s, RecordMask(s))
  {
    var m := RecordMask(s);
    assert IsRecord(s, 0);
    ScanFromMaximum(s, 1, s[0].value, 0);
    assert s[1..] == s[0..][1..] && m[1..] == m[0..][1..];
  }

  /** A series that never decreases passes through the scan unchanged. */
  lemma {:induction false} ScanKeepsRisingSeries(s: seq<Sample>, k: nat, threshold: real)
    requires k <= |s|
    requires ValuesNonDecreasing(s)
    requires k < |s| ==> threshold <= s[k].value
    ensures Scan(s, k, threshold) == s[k..]
    decreases |s| - k
  {
    if k < |s| {
      ScanKeepsRisingSeries(s, k + 1, s[k].value);
      assert s[k..] == [s[k]] + s[k + 1..];
    }
  }

  /** Filtering an already non-decreasing series changes nothing. */
  lemma FilterOfRisingSeries(s: seq<Sample>)
    requires |s| > 0
    requires ValuesNonDecreasing(s)
    ensures RunningMaxFilter(s) == s
  {
    ScanKeepsRisingSeries(s, 0, s[0].value);
  }

  /** Filtering a filtered series changes nothing, whatever order the rows
      are in: the filter alone is idempotent. */
  lemma RunningMaxFilterIdempotent(s: seq<Sample>)
    requires |s| > 0
    ensures RunningMaxFilter(RunningMaxFilter(s)) == RunningMaxFilter(s)
  {
    FilterOfRisingSeries(RunningMaxFilter(s));
  }

  /** Correcting the corrected series again returns it unchanged, with this
      model's stable sort: rows sharing an instant keep their order. */
  lemma CorrectLevelsIdempotent(raw: seq<Sample>)
    requires |raw| > 0
    ensures CorrectLevels(CorrectLevels(raw).value) == CorrectLevels(raw)
  {
    var once := CorrectLevels(raw).value;
    SortSortedIsIdentity(once);
    FilterOfRisingSeries(once);
  }

  /** The second pass under any sort, stable or not: when no two readings
      share an instant, every time-sorted arrangement `p` of the corrected
      series is that series itself, and the filter keeps it whole. */
  lemma SecondPassUnderAnySort(raw: seq<Sample>, p: seq<Sample>)
    requires |raw| > 0 && StrictlyTimeSorted(SortByTime(raw))
    requires TimeSorted(p) && multiset(p) == multiset(CorrectLevels(raw).value)
    ensures p == CorrectLevels(raw).value
    ensures RunningMaxFilter(p) == p
  {
    var sorted := SortByTime(raw);
    var once := CorrectLevels(raw).value;
    SelectKeepsStrictTimeOrder(sorted, RecordMask(sorted));
    StrictOrderIsUnique(once, p);
    FilterOfRisingSeries(once);
  }

  /** With readings that share an instant, the order a sort leaves them in
      decides what the filter keeps: both series below are time-sorted
      arrangements of the same two readings. */
  lemma TiedInstantsDependOnSortOrder()
    ensures var a := [Sample(60, 3.0), Sample(60, 5.0)];
      var b := [Sample(60, 5.0), Sample(60, 3.0)];
      TimeSorted(a) && TimeSorted(b) && multiset(a) == multiset(b)
      && RunningMaxFilter(a) == a && RunningMaxFilter(b) == [Sample(60, 5.0)]
  {
    var a := [Sample(60, 3.0), Sample(60, 5.0)];
    var b := [Sample(60, 5.0), Sample(60, 3.0)];
    assert Scan(a, 2, 5.0) == [];
    assert Scan(a, 1, 3.0) == [a[1]];
    assert Scan(b, 2, 5.0) == [];
    assert Scan(b, 1, 5.0) == [];
  }
}
