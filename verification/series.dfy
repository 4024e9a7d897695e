/** Time series records shared by the correction and derivation scripts,
    together with the sequence vocabulary their contracts are stated in. */
module Series {

  /** One reading of a sensor file: an instant in whole seconds and the
      reading (a level in cm or a volume in cm³; the record carries no unit). */
  datatype Sample = Sample(time: int, value: real)

  /** The ways a script of the pipeline stops without producing output. */
  datatype Error =
    | EmptySeries      // a row is read from a table that has none
    | BadTimestamp     // a date string the ISO parser refuses
    | TopicNotText     // a truthy topic that is not a string

  datatype Result<+T> = Ok(value: T) | Err(error: Error)

  datatype Option<+T> = None | Some(value: T)

  /** The elements of `s` whose flag in `keep` is set, in their original order:
      a subsequence of `s`, which is how every filter below is specified. */
  function Select<T>(s: seq<T>, keep: seq<bool>): (r: seq<T>)
    requires |keep| == |s|
    ensures |r| == Count(keep)
  {
    if |s| == 0 then []
    else (if keep[0] then [s[0]] else []) + Select(s[1..], keep[1..])
  }

  /** What a selection holds is drawn from `s`, each element at most as often
      as it occurs there. */
  lemma {:induction false} SelectIsSubMultiset<T>(s: seq<T>, keep: seq<bool>)
    requires |keep| == |s|
    ensures multiset(Select(s, keep)) <= multiset(s)
    ensures forall x :: x in Select(s, keep) ==> x in s
    decreases |s|
  {
    if |s| > 0 {
      SelectIsSubMultiset(s[1..], keep[1..]);
      assert s == [s[0]] + s[1..];
      var r := Select(s, keep);
      assert multiset(r) <= multiset(s);
      forall x | x in r
        ensures x in s
      {
        assert x in multiset(r);
      }
    }
  }

  /** Number of set flags. */
  function Count(keep: seq<bool>): nat
  {
    if |keep| == 0 then 0 else (if keep[0] then 1 else 0) + Count(keep[1..])
  }

  /** Selecting from a series with one more element appended. */
  lemma {:induction false} SelectAppend<T>(s: seq<T>, keep: seq<bool>, x: T, b: bool)
    requires |keep| == |s|
    ensures Select(s + [x], keep + [b]) == Select(s, keep) + (if b then [x] else [])
    decreases |s|
  {
    var tail := if b then [x] else [];
    if |s| == 0 {
      assert s + [x] == [x] && keep + [b] == [b];
      assert Select([x], [b]) == tail + Select<T>([], []);
    } else {
      var s' := s + [x];
      var keep' := keep + [b];
      assert s'[1..] == s[1..] + [x];
      assert keep'[1..] == keep[1..] + [b];
      SelectAppend(s[1..], keep[1..], x, b);
      var head := if keep[0] then [s[0]] else [];
      assert Select(s', keep') == head + (Select(s[1..], keep[1..]) + tail);
      assert Select(s, keep) == head + Select(s[1..], keep[1..]);
    }
  }

  /** Selecting from a suffix: the flag at its head decides the first element. */
  lemma SelectSuffix<T>(s: seq<T>, keep: seq<bool>, k: nat)
    requires |keep| == |s| && k < |s|
    ensures Select(s[k..], keep[k..]) == (if keep[k] then [s[k]] else []) + Select(s[k + 1..], keep[k + 1..])
  {
    assert s[k..][1..] == s[k + 1..];
    assert keep[k..][1..] == keep[k + 1..];
  }

  /** A prefix is the shorter prefix followed by its last element. */
  lemma PrefixSnoc<T>(s: seq<T>, k: nat)
    requires 0 < k <= |s|
    ensures s[..k - 1] + [s[k - 1]] == s[..k]
  {
  }

  /** Selecting with every flag set returns the whole series. */
  lemma {:induction false} SelectAll<T>(s: seq<T>, keep: seq<bool>)
    requires |keep| == |s|
    requires forall i :: 0 <= i < |keep| ==> keep[i]
    ensures Select(s, keep) == s
    decreases |s|
  {
    if |s| > 0 {
      SelectAll(s[1..], keep[1..]);
    }
  }

  /** The series read back to front. */
  function Reverse<T>(s: seq<T>): (r: seq<T>)
    ensures |r| == |s|
    ensures forall i :: 0 <= i < |s| ==> r[i] == s[|s| - 1 - i]
  {
    if |s| == 0 then [] else Reverse(s[1..]) + [s[0]]
  }

  lemma ReverseConcat<T>(a: seq<T>, b: seq<T>)
    ensures Reverse(a + b) == Reverse(b) + Reverse(a)
  {
    assert forall i :: 0 <= i < |a + b| ==> Reverse(a + b)[i] == (Reverse(b) + Reverse(a))[i];
  }

  lemma ReverseReverse<T>(s: seq<T>)
    ensures Reverse(Reverse(s)) == s
  {
  }

  /** Instants never decrease along the series. */
  predicate TimeSorted(s: seq<Sample>)
  {
    forall i, j :: 0 <= i < j < |s| ==> s[i].time <= s[j].time
  }

  /** Values never decrease along the series. */
  predicate ValuesNonDecreasing(s: seq<Sample>)
  {
    forall i, j :: 0 <= i < j < |s| ==> s[i].value <= s[j].value
  }

  /** Values never increase along the series. */
  predicate ValuesNonIncreasing(s: seq<Sample>)
  {
    forall i, j :: 0 <= i < j < |s| ==> s[i].value >= s[j].value
  }

  /** A subsequence of a time-sorted series is time-sorted. */
  lemma {:induction false} SelectKeepsTimeOrder(s: seq<Sample>, keep: seq<bool>)
    requires |keep| == |s|
    requires TimeSorted(s)
    ensures TimeSorted(Select(s, keep))
    decreases |s|
  {
    if |s| > 0 {
      SelectKeepsTimeOrder(s[1..], keep[1..]);
      SelectIsSubMultiset(s[1..], keep[1..]);
      var rest := Select(s[1..], keep[1..]);
      forall x | x in rest
        ensures s[0].time <= x.time
      {
        assert x in s[1..];
      }
    }
  }

  /** Instants strictly increase along the series: no two samples share one. */
  predicate StrictlyTimeSorted(s: seq<Sample>)
  {
    forall i, j :: 0 <= i < j < |s| ==> s[i].time < s[j].time
  }

  /** A subsequence of a strictly time-sorted series is strictly time-sorted. */
  lemma {:induction false} SelectKeepsStrictTimeOrder(s: seq<Sample>, keep: seq<bool>)
    requires |keep| == |s|
    requires StrictlyTimeSorted(s)
    ensures StrictlyTimeSorted(Select(s, keep))
    decreases |s|
  {
    if |s| > 0 {
      SelectKeepsStrictTimeOrder(s[1..], keep[1..]);
      SelectIsSubMultiset(s[1..], keep[1..]);
      var rest := Select(s[1..], keep[1..]);
      forall x | x in rest
        ensures s[0].time < x.time
      {
        assert x in s[1..];
      }
    }
  }

  /** A strictly time-sorted series is the only time-sorted arrangement of its
      samples: any sort, stable or not, must return it as it is. */
  lemma {:induction false} StrictOrderIsUnique(a: seq<Sample>, b: seq<Sample>)
    requires StrictlyTimeSorted(a) && TimeSorted(b)
    requires multiset(a) == multiset(b)
    ensures a == b
    decreases |a|
  {
    assert |a| == |multiset(a)| == |multiset(b)| == |b|;
    if |a| > 0 {
      EarliestHeadsAgree(a, b);
      TailsSameMultiset(a, b);
      SortedTail(b);
      StrictOrderIsUnique(a[1..], b[1..]);
      assert a == [a[0]] + a[1..];
      assert b == [b[0]] + b[1..];
    }
  }

  /** Two time-sorted arrangements of the same samples, the first strictly
      sorted, start with the same sample: the unique earliest one. */
  lemma EarliestHeadsAgree(a: seq<Sample>, b: seq<Sample>)
    requires StrictlyTimeSorted(a) && TimeSorted(b)
    requires multiset(a) == multiset(b) && |a| > 0 && |b| > 0
    ensures a[0] == b[0]
  {
    assert a[0] in multiset(b) && b[0] in multiset(a);
    var j :| 0 <= j < |b| && b[j] == a[0];
    var i :| 0 <= i < |a| && a[i] == b[0];
    assert b[0].time <= b[j].time;
    assert i == 0;
  }

  /** Removing the same head from two arrangements of the same samples
      leaves arrangements of the same samples. */
  lemma TailsSameMultiset<T>(a: seq<T>, b: seq<T>)
    requires |a| > 0 && |b| > 0 && a[0] == b[0]
    requires multiset(a) == multiset(b)
    ensures multiset(a[1..]) == multiset(b[1..])
  {
    assert a == [a[0]] + a[1..];
    assert b == [b[0]] + b[1..];
    assert multiset(a[1..]) == multiset(a) - multiset{a[0]};
    assert multiset(b[1..]) == multiset(b) - multiset{b[0]};
  }

  /** Reading a non-decreasing series backwards gives a non-increasing one. */
  lemma ReverseFlipsOrder(s: seq<Sample>)
    requires ValuesNonDecreasing(s)
    ensures ValuesNonIncreasing(Reverse(s))
  {
  }

  /** The tail of a time-sorted series is time-sorted. */
  lemma SortedTail(s: seq<Sample>)
    requires |s| > 0 && TimeSorted(s)
    ensures TimeSorted(s[1..])
  {
    var tail := s[1..];
    forall i, j | 0 <= i < j < |tail|
      ensures tail[i].time <= tail[j].time
    {
      assert tail[i] == s[i + 1] && tail[j] == s[j + 1];
    }
  }

  /** A sample no later than every sample of a sorted series can head it. */
  lemma SortedCons(y: Sample, r: seq<Sample>)
    requires TimeSorted(r)
    requires forall z :: z in r ==> y.time <= z.time
    ensures TimeSorted([y] + r)
  {
    var c := [y] + r;
    forall i, j | 0 <= i < j < |c|
      ensures c[i].time <= c[j].time
    {
      assert c[j] == r[j - 1];
      if i > 0 {
        assert c[i] == r[i - 1];
      }
    }
  }

  /** Inserts `x` before the first sample of the sorted `s` that is not earlier
      than it; the samples already present keep their relative order. */
  function Insert(x: Sample, s: seq<Sample>): (r: seq<Sample>)
    requires TimeSorted(s)
    ensures TimeSorted(r)
    ensures multiset(r) == multiset(s) + multiset{x}
  {
    if |s| == 0 then [x]
    else if x.time <= s[0].time then
      SortedCons(x, s);
      [x] + s
    else
      SortedTail(s);
      var rest := Insert(x, s[1..]);
      InsertedAfterHead(x, s, rest);
      SortedCons(s[0], rest);
      assert multiset([s[0]] + rest) == multiset(s) + multiset{x} by {
        assert s == [s[0]] + s[1..];
      }
      [s[0]] + rest
  }

  /** The samples of `s` after its head, with a sample later than the head
      added, are all no earlier than the head. */
  lemma InsertedAfterHead(x: Sample, s: seq<Sample>, rest: seq<Sample>)
    requires |s| > 0 && TimeSorted(s) && s[0].time < x.time
    requires multiset(rest) == multiset(s[1..]) + multiset{x}
    ensures forall y :: y in rest ==> s[0].time <= y.time
  {
    forall y | y in rest
      ensures s[0].time <= y.time
    {
      assert y in multiset(rest);
      if y != x {
        assert y in s[1..];
        var j :| 0 <= j < |s[1..]| && s[1..][j] == y;
        assert s[j + 1] == y;
      }
    }
  }

  /** Sorting by instant: the output is a time-sorted permutation of the
      input. The sort is stable, which is one of the orders an unstable sort
      may also produce. */
  function SortByTime(s: seq<Sample>): (r: seq<Sample>)
    ensures TimeSorted(r)
    ensures multiset(r) == multiset(s)
    ensures |r| == |s|
  {
    if |s| == 0 then []
    else
      assert s == [s[0]] + s[1..];
      var r := Insert(s[0], SortByTime(s[1..]));
      assert |r| == |multiset(r)|;
      r
  }

  /** A series already in time order is left exactly as it is by the sort. */
  lemma {:induction false} SortSortedIsIdentity(s: seq<Sample>)
    requires TimeSorted(s)
    ensures SortByTime(s) == s
    decreases |s|
  {
    if |s| > 0 {
      SortedTail(s);
      SortSortedIsIdentity(s[1..]);
      InsertAtFront(s[0], s[1..]);
      assert s == [s[0]] + s[1..];
    }
  }

  /** A sample no later than the head of a sorted series is inserted in front. */
  lemma InsertAtFront(x: Sample, s: seq<Sample>)
    requires TimeSorted(s)
    requires |s| == 0 || x.time <= s[0].time
    ensures Insert(x, s) == [x] + s
  {
  }
}
