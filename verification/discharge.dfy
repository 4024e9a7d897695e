/** Discharge: the flow through the tank is derived from the corrected level
    series by a finite difference over each pair of consecutive rows, scaled
    by the cross-section of the cylindrical tank. */
module Discharge {
  import opened Series

  /** Tank radius in cm. */
  const Radius: real := 30.0

  /** The cross-section in cm², with π taken as 3.14 as the script does. */
  const Area: real := 3.14 * Radius * Radius

  /** Flow in cm³/min between two consecutive rows, computed as the script
      pairs them: the earlier row minus the later one, over the earlier
      instant minus the later one in minutes. */
  function Flow(earlier: Sample, later: Sample): (r: real)
    requires earlier.time != later.time
    ensures r * ((later.time - earlier.time) as real / 60.0) == (later.value - earlier.value) * Area
  {
    ((earlier.value - later.value) * Area) / ((earlier.time - later.time) as real / 60.0)
  }

  /** A float quotient as numpy yields it. A non-zero gap gives a finite
      value. A zero gap gives an infinity with the sign of the numerator, or
      NaN when the numerator is zero too; numpy only warns. */
  datatype FlowValue = Finite(v: real) | PosInf | NegInf | NaN

  /** One row of the discharge file: an instant and the flow written with it. */
  datatype FlowRow = FlowRow(time: int, flow: FlowValue)

  /** The flow the script writes for a pair of rows, a zero gap included:
      the numerator is the earlier level minus the later one, the
      denominator the positive zero of `timedelta(0).total_seconds() / 60`. */
  function PairFlow(earlier: Sample, later: Sample): (r: FlowValue)
    ensures r.Finite? <==> earlier.time != later.time
    ensures r.Finite? ==> r.v * ((later.time - earlier.time) as real / 60.0) == (later.value - earlier.value) * Area
    ensures r == PosInf <==> earlier.time == later.time && later.value < earlier.value
    ensures r == NegInf <==> earlier.time == later.time && later.value > earlier.value
    ensures r == NaN <==> earlier.time == later.time && later.value == earlier.value
  {
    if earlier.time != later.time then Finite(Flow(earlier, later))
    else
      var numerator := (earlier.value - later.value) * Area;
      if numerator > 0.0 then PosInf
      else if numerator < 0.0 then NegInf
      else NaN
  }

  /** Consecutive rows never share an instant: then every flow is finite. */
  predicate DistinctConsecutiveTimes(s: seq<Sample>)
  {
    forall i :: 0 < i < |s| ==> s[i - 1].time != s[i].time
  }

  /** The discharge file: one row per pair of consecutive input rows, stamped
      with the later row's instant. A file of fewer than two rows gives an
      empty result, not an error. */
  method ComputeDischarge(s: seq<Sample>) returns (out: seq<FlowRow>)
    ensures |out| == if |s| <= 1 then 0 else |s| - 1
    ensures forall k :: 0 <= k < |out| ==> out[k].time == s[k + 1].time
    ensures forall k :: 0 <= k < |out| ==> out[k].flow == PairFlow(s[k], s[k + 1])
  {
    out := [];
    var i := 1;
    while i < |s|
      invariant 1 <= i
      invariant |out| == i - 1
      invariant i <= |s| || (i == 1 && |s| <= 1)
      invariant forall k :: 0 <= k < |out| ==> out[k] == FlowRow(s[k + 1].time, PairFlow(s[k], s[k + 1]))
    {
      var earlier := s[i - 1];
      var later := s[i];
      out := out + [FlowRow(later.time, PairFlow(earlier, later))];
      i := i + 1;
    }
  }

  /** Two level readings within one minute share their `H:MM` time, so
      their gap is zero: a falling level gives +inf, a rising one -inf, an
      unchanged one NaN. */
  lemma RepeatedMinute()
    ensures PairFlow(Sample(540, 10.0), Sample(540, 7.0)) == PosInf
    ensures PairFlow(Sample(540, 7.0), Sample(540, 10.0)) == NegInf
    ensures PairFlow(Sample(540, 7.0), Sample(540, 7.0)) == NaN
  {
  }

  /** Without a repeated instant every row of the file carries a finite flow. */
  lemma AllFiniteWhenInstantsDistinct(s: seq<Sample>, out: seq<FlowRow>)
    requires DistinctConsecutiveTimes(s)
    requires |out| == |s| - 1
    requires forall k :: 0 <= k < |out| ==> out[k].flow == PairFlow(s[k], s[k + 1])
    ensures forall k :: 0 <= k < |out| ==> out[k].flow == Finite(Flow(s[k], s[k + 1]))
  {
    forall k | 0 <= k < |out|
      ensures out[k].flow == Finite(Flow(s[k], s[k + 1]))
    {
      assert s[k].time != s[k + 1].time;
    }
  }

  /** The area the script computes is 2826 cm². */
  lemma AreaIs2826()
    ensures Area == 2826.0
  {
  }

  /** The script's pairing is the usual later-minus-earlier difference
      quotient: both differences change sign together. */
  lemma FlowIsForwardDifference(earlier: Sample, later: Sample)
    requires earlier.time != later.time
    ensures Flow(earlier, later)
         == ((later.value - earlier.value) * Area) / ((later.time - earlier.time) as real / 60.0)
  {
    var dv := earlier.value - later.value;
    var dt := (earlier.time - later.time) as real / 60.0;
    assert (later.time - earlier.time) as real / 60.0 == -dt;
    assert (later.value - earlier.value) * Area == -(dv * Area);
    assert (-(dv * Area)) / (-dt) == (dv * Area) / dt;
  }

  /** Flow times the elapsed minutes, divided by the area, is the level
      change between the two rows. */
  lemma FlowTimesGap(earlier: Sample, later: Sample)
    requires earlier.time != later.time
    ensures Flow(earlier, later) * ((later.time - earlier.time) as real / 60.0) / Area
         == later.value - earlier.value
  {
    var dv := earlier.value - later.value;
    var dt := (earlier.time - later.time) as real / 60.0;
    assert dt != 0.0;
    assert Flow(earlier, later) * dt == dv * Area;
    assert (later.time - earlier.time) as real / 60.0 == -dt;
    assert Flow(earlier, later) * (-dt) == -(dv * Area);
  }

  /** A level that does not change gives no flow. */
  lemma EqualLevelsNoFlow(earlier: Sample, later: Sample)
    requires earlier.time != later.time
    requires earlier.value == later.value
    ensures Flow(earlier, later) == 0.0
  {
  }

  /** With time running forward, the flow has the sign of the level change. */
  lemma FlowSignFollowsLevel(earlier: Sample, later: Sample)
    requires earlier.time < later.time
    ensures Flow(earlier, later) > 0.0 <==> later.value > earlier.value
    ensures Flow(earlier, later) < 0.0 <==> later.value < earlier.value
  {
    FlowIsForwardDifference(earlier, later);
    var dv := (later.value - earlier.value) * Area;
    var dt := (later.time - earlier.time) as real / 60.0;
    assert dt > 0.0;
    assert dv > 0.0 <==> later.value > earlier.value;
    assert dv < 0.0 <==> later.value < earlier.value;
    assert dv / dt > 0.0 <==> dv > 0.0;
    assert dv / dt < 0.0 <==> dv < 0.0;
  }

  /** A drop of 3 cm over one minute is an outflow of 8478 cm³/min. */
  lemma OneMinuteDrop()
    ensures Flow(Sample(0, 10.0), Sample(60, 7.0)) == -8478.0
  {
  }

  /** Sum of flow times elapsed minutes over the first `n` rows, divided by
      the area: the level change the discharge series accounts for. */
  function Accumulated(s: seq<Sample>, flows: seq<FlowRow>, n: nat): real
    requires n < |s| && n <= |flows|
    requires forall k :: 0 <= k < n ==> flows[k].flow.Finite?
  {
    if n == 0 then 0.0
    else Accumulated(s, flows, n - 1)
         + flows[n - 1].flow.v * ((s[n].time - s[n - 1].time) as real / 60.0) / Area
  }

  /** Integrating the discharge series over time recovers the level change
      from the first row to the last: the finite differences telescope. */
  lemma {:induction false} DischargeIntegratesToLevelChange(s: seq<Sample>, flows: seq<FlowRow>, n: nat)
    requires DistinctConsecutiveTimes(s)
    requires |flows| == |s| - 1
    requires forall k :: 0 <= k < |flows| ==> flows[k].flow == PairFlow(s[k], s[k + 1])
    requires n < |s|
    ensures forall k :: 0 <= k < n ==> flows[k].flow.Finite?
    ensures Accumulated(s, flows, n) == s[n].value - s[0].value
  {
    AllFiniteWhenInstantsDistinct(s, flows);
    if n > 0 {
      DischargeIntegratesToLevelChange(s, flows, n - 1);
      FlowTimesGap(s[n - 1], s[n]);
    }
  }
}
