/** readers/readpump_opcua.js: how the OPC-UA reader turns data values into
    points, filters polled points, buffers monitored changes, normalises poll
    rates, groups polled measurements into recurrence containers, and
    validates and parses its measurement configuration. The OPC-UA session,
    subscriptions and the scheduler are left out: what a read returns, whether
    the session is usable and the clock are parameters, and a scheduled job
    is recorded by the key of the container it polls. */
module ReadPumpOpcua {
  import opened Js
  import opened Outcomes
  import opened Points
  import opened Config
  import opened Validators
  import opened Readers
  import Utils
  import OpcuaConnect

  // ---------------------------------------------------------------------
  // Data values and points

  /** An OPC-UA DataValue: its Variant's value (None when the DataValue has
      no Variant), the name of its status code, and its source timestamp in
      milliseconds (None when there is none). */
  datatype DataValue = DataValue(value: Option<Prim>, statusName: Prim, sourceTimestamp: Option<real>)

  /** `dataValueToPoint(node, dataValue, customTimestamp)`. The compiled
      `calc` function is the parameter `eval`, applied to the calc source and
      the value; a missing value becomes 0 and is never passed to `calc`. A
      custom timestamp that is not null replaces the source timestamp, and
      without either the point is stamped `now`. */
  function DataValueToPoint(node: ReadNode, dv: DataValue, customTimestamp: Option<real>, now: real,
                            eval: (Prim, Prim) -> Prim): (p: Point)
    ensures p.node == node && p.opcstatus == dv.statusName
    ensures dv.value.None? ==> p.value == Num(0.0)
    ensures dv.value.Some? && CalcApplies(node.config) ==> p.value == eval(node.config.calcSource.value, dv.value.value)
    ensures dv.value.Some? && !CalcApplies(node.config) ==> p.value == dv.value.value
    ensures customTimestamp.Some? ==> p.timestamp == Num(customTimestamp.value)
    ensures customTimestamp.None? && dv.sourceTimestamp.Some? ==> p.timestamp == Num(dv.sourceTimestamp.value)
    ensures customTimestamp.None? && dv.sourceTimestamp.None? ==> p.timestamp == Num(now)
  {
    var value :=
      match dv.value
      case None => Num(0.0)
      case Some(v) => if CalcApplies(node.config) then eval(node.config.calcSource.value, v) else v;
    var sourceTime := if dv.sourceTimestamp.Some? then dv.sourceTimestamp.value else now;
    var time := if customTimestamp.Some? then customTimestamp.value else sourceTime;
    Point(node, value, dv.statusName, Num(time))
  }

  /** `PointIsValid`: the type of the value is one of SUPPORTED_DATA_TYPES. */
  predicate PointIsValid(p: Point) {
    TypeOf(p.value) in Utils.SUPPORTED_DATA_TYPES
  }

  /** `PointMatchesType`: `typeof point.value === point.node.dataType`. */
  predicate PointMatchesType(p: Point) {
    p.node.config.dataType == Str(TypeOf(p.value))
  }

  /** A valid point is exactly one that the buffer's `read_point` schema
      accepts as a value, and a valid point of the right type is a number, a
      string or a boolean under the matching declared type. */
  lemma PointTypeChecks(p: Point)
    ensures PointIsValid(p) <==> IsScalar(p.value)
    ensures PointIsValid(p) && PointMatchesType(p) <==>
      || (p.node.config.dataType == Str("number") && p.value.Num?)
      || (p.node.config.dataType == Str("string") && p.value.Str?)
      || (p.node.config.dataType == Str("boolean") && p.value.Bool?)
  {
  }

  // ---------------------------------------------------------------------
  // Deadband

  function Abs(x: real): real {
    if x < 0.0 then -x else x
  }

  /** `x > 0` for a deadband setting that may be undefined. */
  predicate Positive(x: Option<real>) {
    x.Some? && x.value > 0.0
  }

  /** The number case: the change is below a positive absolute deadband, or
      below a positive relative deadband times the previous value's size. */
  predicate NumberWithinDeadband(c: real, p: real, dba: Option<real>, dbr: Option<real>) {
    || (Positive(dba) && Abs(c - p) < dba.value)
    || (Positive(dbr) && Abs(c - p) < Abs(p) * dbr.value)
  }

  /** `PointIsWithinDeadband` as a function of the current value, the previous
      value and the two deadband settings (None for undefined). A previous
      value of another type that is not undefined ends the check with false;
      with an undefined previous value the number branch computes NaN and the
      boolean branch compares with undefined, so neither holds. */
  function PointIsWithinDeadband(curr: Prim, prev: Prim, dba: Option<real>, dbr: Option<real>): (r: bool)
    ensures TypeOf(curr) != TypeOf(prev) ==> !r
    ensures curr.Num? && prev.Num? ==> (r <==> NumberWithinDeadband(curr.n, prev.n, dba, dbr))
    ensures curr.Bool? && prev.Bool? ==> (r <==> Positive(dba) && curr == prev)
    ensures curr.Str? ==> !r
    ensures r ==> Positive(dba) || Positive(dbr)
  {
    if TypeOf(curr) != TypeOf(prev) && prev != Undefined then false
    else
      match curr
      case Num(c) => prev.Num? && NumberWithinDeadband(c, prev.n, dba, dbr)
      case Bool(_) => Positive(dba) && prev == curr
      case _ => false
  }

  /** As the reader is wired, the deadband settings are read from the node,
      which never carries them, so no point is ever within a deadband. */
  lemma DeadbandNeverSuppressesAsWired(curr: Prim, prev: Prim)
    ensures !PointIsWithinDeadband(curr, prev, None, None)
  {
  }

  /** A number within 1 of a previous number is within an absolute deadband
      of 2, and a repeated boolean is within any positive one. */
  lemma DeadbandExamples()
    ensures PointIsWithinDeadband(Num(10.5), Num(10.0), Some(2.0), None)
    ensures !PointIsWithinDeadband(Num(13.0), Num(10.0), Some(2.0), None)
    ensures PointIsWithinDeadband(Num(10.5), Num(10.0), None, Some(0.1))
    ensures PointIsWithinDeadband(Bool(true), Bool(true), Some(1.0), None)
    ensures !PointIsWithinDeadband(Bool(true), Num(1.0), Some(1.0), None)
    ensures !PointIsWithinDeadband(Str("a"), Str("a"), Some(1.0), Some(1.0))
  {
  }

  // ---------------------------------------------------------------------
  // The polling filter

  /** The value a Good point of the wrong type is replaced with: false, 0 or
      "" for the node's data type, or None when the data type is none of
      these and the point is dropped. */
  function DefaultFor(dataType: Prim): (r: Option<Prim>)
    ensures r.Some? <==> dataType in {Str("boolean"), Str("number"), Str("string")}
    ensures r.Some? ==> dataType == Str(TypeOf(r.value))
  {
    match dataType
    case Str(t) =>
      if t == "boolean" then Some(Bool(false))
      else if t == "number" then Some(Num(0.0))
      else if t == "string" then Some(Str(""))
      else None
    case _ => None
  }

  /** What the filter of `_poll_job` does with one point: whether it is kept,
      the point as it leaves the filter (its value possibly replaced), and
      whether `UpdatePointLastData` is called for it. */
  datatype Verdict = Verdict(keep: bool, point: Point, update: bool)

  /** One step of the `results.filter` callback of `_poll_job`, given the
      node's last value. The deadband settings are absent, as the reader is
      wired. */
  function FilterPoint(p: Point, prev: Prim): (v: Verdict)
    ensures v.point.node == p.node && v.point.opcstatus == p.opcstatus && v.point.timestamp == p.timestamp
    ensures p.opcstatus != Str("Good") ==> !v.keep && v.update && v.point == p
    ensures p.opcstatus == Str("Good") ==> (v.keep <==> v.update)
    ensures p.opcstatus == Str("Good") && PointIsValid(p) && PointMatchesType(p) ==> v.point == p
    ensures p.opcstatus == Str("Good") && !(PointIsValid(p) && PointMatchesType(p)) ==>
      && (DefaultFor(p.node.config.dataType).None? ==> !v.keep)
      && (DefaultFor(p.node.config.dataType).Some? ==> v.point.value == DefaultFor(p.node.config.dataType).value)
    ensures v.keep ==> p.opcstatus == Str("Good") && PointIsValid(v.point) && PointMatchesType(v.point)
  {
    if p.opcstatus != Str("Good") then Verdict(false, p, true)
    else
      var candidate :=
        if PointIsValid(p) && PointMatchesType(p) then Some(p)
        else match DefaultFor(p.node.config.dataType)
          case Some(d) => Some(p.(value := d))
          case None => None;
      if candidate.None? then Verdict(false, p, false)
      else
        var q := candidate.value;
        if PointIsWithinDeadband(q.value, prev, None, None) then Verdict(false, q, false)
        else if !PointMatchesType(q) then Verdict(false, q, false)
        else Verdict(true, q, true)
  }

  /** Because the deadband never suppresses as wired, a Good point is kept
      exactly when it is of its node's type or its node's type has a
      default; the last value plays no part. */
  lemma GoodPointIsKeptIffTyped(p: Point, prev: Prim)
    requires p.opcstatus == Str("Good")
    ensures FilterPoint(p, prev).keep <==>
      (PointIsValid(p) && PointMatchesType(p)) || DefaultFor(p.node.config.dataType).Some?
  {
    DeadbandNeverSuppressesAsWired(p.value, prev);
    var d := DefaultFor(p.node.config.dataType);
    if !(PointIsValid(p) && PointMatchesType(p)) && d.Some? {
      DeadbandNeverSuppressesAsWired(d.value, prev);
      assert PointMatchesType(p.(value := d.value));
    }
  }

  /** The points the filter keeps from `ps`, where `prevs[k]` is the last value
      of the node of `ps[k]`, in their order. */
  function KeptPoints(ps: seq<Point>, prevs: seq<Prim>): (r: seq<Point>)
    requires |prevs| == |ps|
    ensures |r| <= |ps|
    ensures forall j :: 0 <= j < |r| ==>
      r[j].opcstatus == Str("Good") && PointIsValid(r[j]) && PointMatchesType(r[j])
  {
    if ps == [] then []
    else
      var n := |ps| - 1;
      var v := FilterPoint(ps[n], prevs[n]);
      KeptPoints(ps[..n], prevs[..n]) + (if v.keep then [v.point] else [])
  }

  /** Every point the filter hands to the buffer is Good, of a supported type
      and of its node's type. */
  lemma {:induction false} KeptPointsAreGood(ps: seq<Point>, prevs: seq<Prim>)
    requires |prevs| == |ps|
    ensures forall p :: p in KeptPoints(ps, prevs) ==>
      p.opcstatus == Str("Good") && PointIsValid(p) && PointMatchesType(p) && p.node in NodesOf(ps)
  {
    if ps != [] {
      var n := |ps| - 1;
      KeptPointsAreGood(ps[..n], prevs[..n]);
      forall p | p in KeptPoints(ps[..n], prevs[..n]) ensures p.node in NodesOf(ps) {
        var k :| 0 <= k < n && ps[..n][k].node == p.node;
        assert ps[k].node == p.node;
      }
    }
  }

  /** No node appears twice in `ps`. */
  predicate DistinctNodes(ps: seq<Point>) {
    forall i, j :: 0 <= i < j < |ps| ==> ps[i].node != ps[j].node
  }

  /** The nodes of `ps`. */
  function NodesOf(ps: seq<Point>): set<ReadNode> {
    set k | 0 <= k < |ps| :: ps[k].node
  }

  /** The last value of the node of every point of `ps`. */
  function LastValues(ps: seq<Point>): (r: seq<Prim>)
    reads NodesOf(ps)
    ensures |r| == |ps|
    ensures forall k :: 0 <= k < |ps| ==> r[k] == ps[k].node.lastValue
  {
    if ps == [] then []
    else
      var n := |ps| - 1;
      assert NodesOf(ps[..n]) <= NodesOf(ps) by {
        forall x | x in NodesOf(ps[..n]) ensures x in NodesOf(ps) {
          var k :| 0 <= k < n && ps[..n][k].node == x;
          assert ps[k].node == x;
        }
      }
      LastValues(ps[..n]) + [ps[n].node.lastValue]
  }

  /** The last status of the node of every point of `ps`. */
  ghost function LastStatuses(ps: seq<Point>): (r: seq<Prim>)
    reads NodesOf(ps)
    ensures |r| == |ps|
    ensures forall k :: 0 <= k < |ps| ==> r[k] == ps[k].node.lastOpcstatus
  {
    if ps == [] then []
    else
      var n := |ps| - 1;
      assert NodesOf(ps[..n]) <= NodesOf(ps) by {
        forall x | x in NodesOf(ps[..n]) ensures x in NodesOf(ps) {
          var k :| 0 <= k < n && ps[..n][k].node == x;
          assert ps[k].node == x;
        }
      }
      LastStatuses(ps[..n]) + [ps[n].node.lastOpcstatus]
  }

  /** `UpdatePointLastData`: the node records the point's value and status. */
  method UpdatePointLastData(p: Point)
    modifies p.node
    ensures p.node.lastValue == p.value && p.node.lastOpcstatus == p.opcstatus
  {
    p.node.lastValue := p.value;
    p.node.lastOpcstatus := p.opcstatus;
  }

  /** The node of `p` holds what the filter leaves there for `p`, given the
      value and status it held before. */
  ghost predicate Recorded(p: Point, prev: Prim, prevStatus: Prim)
    reads p.node
  {
    var v := FilterPoint(p, prev);
    && p.node.lastValue == (if v.update then v.point.value else prev)
    && p.node.lastOpcstatus == (if v.update then v.point.opcstatus else prevStatus)
  }

  lemma KeptPointsSnoc(ps: seq<Point>, prevs: seq<Prim>, j: nat)
    requires j < |ps| == |prevs|
    ensures KeptPoints(ps[..j + 1], prevs[..j + 1]) == KeptPoints(ps[..j], prevs[..j])
      + (if FilterPoint(ps[j], prevs[j]).keep then [FilterPoint(ps[j], prevs[j]).point] else [])
  {
    assert ps[..j + 1][..j] == ps[..j];
    assert prevs[..j + 1][..j] == prevs[..j];
  }

  /** One call of the filter callback. */
  method FilterOne(p: Point) returns (v: Verdict)
    modifies p.node
    ensures v == FilterPoint(p, old(p.node.lastValue))
    ensures Recorded(p, old(p.node.lastValue), old(p.node.lastOpcstatus))
  {
    v := FilterPoint(p, p.node.lastValue);
    if v.update {
      UpdatePointLastData(v.point);
    }
  }

  /** The `results.filter` of `_poll_job`: the kept points are those of
      `KeptPoints` for the last values before the filter ran, and each node
      records its point's value and status exactly when the filter calls
      `UpdatePointLastData` for it. */
  method FilterResults(results: seq<Point>) returns (kept: seq<Point>)
    requires DistinctNodes(results)
    modifies NodesOf(results)
    ensures kept == KeptPoints(results, old(LastValues(results)))
    ensures forall k :: 0 <= k < |results| ==>
      Recorded(results[k], old(results[k].node.lastValue), old(results[k].node.lastOpcstatus))
  {
    ghost var prevs := LastValues(results);
    ghost var statuses := LastStatuses(results);
    kept := [];
    var j := 0;
    while j < |results|
      invariant 0 <= j <= |results|
      invariant kept == KeptPoints(results[..j], prevs[..j])
      invariant forall k :: j <= k < |results| ==>
        results[k].node.lastValue == prevs[k] && results[k].node.lastOpcstatus == statuses[k]
      invariant forall k :: 0 <= k < j ==> Recorded(results[k], prevs[k], statuses[k])
    {
      ghost var node := results[j].node;
      var v := FilterOne(results[j]);
      forall k | 0 <= k < j ensures Recorded(results[k], prevs[k], statuses[k]) {
        assert results[k].node != node;
      }
      KeptPointsSnoc(results, prevs, j);
      if v.keep {
        kept := kept + [v.point];
      }
      j := j + 1;
    }
    assert results[..j] == results;
    assert prevs[..j] == prevs;
  }

  // ---------------------------------------------------------------------
  // Poll rates (samples per minute)

  /** `Math.round`: halves round up. */
  function Round(x: real): (r: int)
    ensures x - 0.5 < r as real <= x + 0.5
  {
    (x + 0.5).Floor
  }

  /** The checks of `_add_polled_measurement` as written: a pollRate must be
      present, not above 60 and not 0. A negative rate passes. */
  function CheckPollRateAsWritten(pollRate: Option<real>): (r: Outcome)
    ensures r == Pass <==> pollRate.Some? && pollRate.value <= 60.0 && pollRate.value != 0.0
    ensures r != Pass ==> r == Fail(ConfigurationError)
  {
    if pollRate.None? then Fail(ConfigurationError)
    else if pollRate.value > 60.0 then Fail(ConfigurationError)
    else if pollRate.value == 0.0 then Fail(ConfigurationError)
    else Pass
  }

  /** The checks as intended: a negative rate is refused with the other
      rates that have no recurrence. */
  function CheckPollRate(pollRate: Option<real>): (r: Outcome)
    ensures r == Pass <==> pollRate.Some? && 0.0 < pollRate.value <= 60.0
    ensures r != Pass ==> r == Fail(ConfigurationError)
    ensures r == Pass ==> CheckPollRateAsWritten(pollRate) == Pass
  {
    if pollRate.None? then Fail(ConfigurationError)
    else if pollRate.value > 60.0 then Fail(ConfigurationError)
    else if pollRate.value == 0.0 then Fail(ConfigurationError)
    else if pollRate.value < 0.0 then Fail(ConfigurationError)
    else Pass
  }

  /** The smallest divisor of 60 that is at least `p`. */
  function NextDivisorOf60(p: int): (d: int)
    requires 1 <= p <= 60
    ensures p <= d <= 60 && 60 % d == 0
    ensures forall q :: p <= q < d ==> 60 % q != 0
    decreases 60 - p
  {
    if 60 % p == 0 then p else NextDivisorOf60(p + 1)
  }

  /** The largest multiple of 60 that is at most `s`. */
  function PrevMultipleOf60(s: int): (m: int)
    ensures m % 60 == 0 && m <= s < m + 60
  {
    s - s % 60
  }

  /** The rate a positive rate is corrected to: above 1 it is rounded and
      then raised to a divisor of 60; below 1 the rounded interval in seconds
      is lowered to a multiple of 60 and the rate is 60 over that interval. */
  function CorrectedPollRate(rate: real): (r: real)
    requires 0.0 < rate <= 60.0
    ensures r > 0.0
  {
    if rate > 1.0 then NextDivisorOf60(Round(rate)) as real
    else if rate < 1.0 then 60.0 / PrevMultipleOf60(Round(60.0 / rate)) as real
    else rate
  }

  /** Whether the correction changed the rounded rate (a loop iterated). */
  predicate NeedsCorrection(rate: real) {
    || (rate > 1.0 && 60 % Round(rate) != 0)
    || (0.0 < rate < 1.0 && Round(60.0 / rate) % 60 != 0)
  }

  lemma BelowOneIntervalAtLeast60(rate: real)
    requires 0.0 < rate < 1.0
    ensures Round(60.0 / rate) >= 60
  {
    assert 60.0 / rate > 60.0 by {
      assert (60.0 / rate) * rate == 60.0;
    }
  }

  /** The `pollRate > 1` loop: go up from the rounded rate to a divisor of 60. */
  method RaiseToDivisor(start: int) returns (p: int, corrected: bool)
    requires 1 <= start <= 60
    ensures p == NextDivisorOf60(start)
    ensures corrected <==> 60 % start != 0
  {
    p := start;
    corrected := false;
    while 60 % p != 0
      invariant start <= p <= NextDivisorOf60(start)
      invariant corrected <==> p != start
      decreases 60 - p
    {
      p := p + 1;
      corrected := true;
    }
  }

  /** The `pollRate < 1` loop: go down from the rounded interval in seconds to
      a multiple of 60. The remainder is zero for the same intervals under
      JavaScript's and Dafny's `%`, whatever the sign. */
  method LowerToMultiple(start: int) returns (s: int, corrected: bool)
    ensures s == PrevMultipleOf60(start)
    ensures corrected <==> start % 60 != 0
  {
    s := start;
    corrected := false;
    while s % 60 != 0
      invariant PrevMultipleOf60(start) <= s <= start
      invariant s % 60 != 0 ==> PrevMultipleOf60(s) == PrevMultipleOf60(start)
      invariant corrected <==> s != start
      decreases s % 60
    {
      s := s - 1;
      corrected := true;
    }
  }

  /** The correction of `_add_polled_measurement` for a rate that passed the
      checks; `corrected` is the `pollRateCorrected` flag. */
  method CorrectPollRate(rate: real) returns (pollRate: real, corrected: bool)
    requires 0.0 < rate <= 60.0
    ensures pollRate == CorrectedPollRate(rate)
    ensures corrected <==> NeedsCorrection(rate)
  {
    pollRate := rate;
    corrected := false;
    if rate > 1.0 {
      var p;
      p, corrected := RaiseToDivisor(Round(rate));
      pollRate := p as real;
    }
    if rate < 1.0 {
      BelowOneIntervalAtLeast60(rate);
      var s;
      s, corrected := LowerToMultiple(Round(60.0 / rate));
      assert s >= 60;
      pollRate := 60.0 / s as real;
    }
  }

  /** The whole number of seconds between two polls, when `60 / pollRate`
      is one. */
  function IntervalSeconds(pollRate: real): (iv: real)
    requires pollRate > 0.0
  {
    60.0 / pollRate
  }

  lemma DivisorInterval(d: int)
    requires 1 <= d <= 60 && 60 % d == 0
    ensures 60.0 / d as real == (60 / d) as real
  {
    assert d * (60 / d) == 60;
    assert (d as real) * ((60 / d) as real) == 60.0;
  }

  lemma MultipleInterval(m: int)
    requires m >= 60
    ensures 60.0 / (60.0 / m as real) == m as real
  {
  }

  /** A corrected rate polls at a whole number of seconds that divides 60 or
      is a whole number of minutes. */
  lemma CorrectedIntervalIsWhole(rate: real)
    requires 0.0 < rate <= 60.0
    ensures var iv := IntervalSeconds(CorrectedPollRate(rate));
      && iv.Floor as real == iv && iv.Floor >= 1
      && (60 % iv.Floor == 0 || iv.Floor % 60 == 0)
  {
    if rate > 1.0 {
      DivisorRateInterval(NextDivisorOf60(Round(rate)));
    } else if rate < 1.0 {
      BelowOneIntervalAtLeast60(rate);
      var m := PrevMultipleOf60(Round(60.0 / rate));
      MultipleInterval(m);
    }
  }

  lemma DivisorRateInterval(d: int)
    requires 1 <= d <= 60 && 60 % d == 0
    ensures var iv := IntervalSeconds(d as real);
      && iv.Floor as real == iv && iv.Floor >= 1 && 60 % iv.Floor == 0
  {
    DivisorInterval(d);
    var q := 60 / d;
    assert q * d == 60;
    assert 60 % q == 0;
    assert IntervalSeconds(d as real) == q as real;
  }

  /** A rate of 7 per minute becomes 10, one of 0.7 becomes 1, and one of 0.5
      (a poll every two minutes) stays. */
  lemma CorrectionExamples()
    ensures CorrectedPollRate(7.0) == 10.0 && NeedsCorrection(7.0)
    ensures CorrectedPollRate(12.0) == 12.0 && !NeedsCorrection(12.0)
    ensures CorrectedPollRate(0.7) == 1.0 && NeedsCorrection(0.7)
    ensures CorrectedPollRate(0.5) == 0.5 && !NeedsCorrection(0.5)
  {
    assert Round(7.0) == 7;
    assert NextDivisorOf60(7) == 10 by {
      assert NextDivisorOf60(9) == 10;
      assert NextDivisorOf60(8) == 10;
    }
    assert Round(60.0 / 0.7) == 86;
    assert Round(60.0 / 0.5) == 120;
  }

  // ---------------------------------------------------------------------
  // Recurrence rules

  /** The seconds of a recurrence rule for an interval of `iv` whole seconds:
      0, iv, 2 iv, ... up to, not including, 60. */
  predicate IsSecondsRule(iv: int, seconds: seq<int>) {
    && iv > 0
    && |seconds| >= 1
    && (forall k :: 0 <= k < |seconds| ==> seconds[k] == k * iv && seconds[k] < 60)
    && |seconds| * iv >= 60
  }

  lemma MulLess(a: int, b: int, iv: int)
    requires iv > 0 && a * iv < b * iv
    ensures a < b
  {
  }

  /** An interval has exactly one rule. */
  lemma SecondsRuleIsUnique(iv: int, s1: seq<int>, s2: seq<int>)
    requires IsSecondsRule(iv, s1) && IsSecondsRule(iv, s2)
    ensures s1 == s2
  {
    var n1 := |s1| - 1;
    var n2 := |s2| - 1;
    assert s1[n1] == n1 * iv;
    assert s2[n2] == n2 * iv;
    MulLess(n1, |s2|, iv);
    MulLess(n2, |s1|, iv);
  }

  /** The seconds loop of `SortMeasurementPollers`, which the test
      `interval >= 1 <= 60` always selects: `(interval >= 1)` is a boolean,
      and a boolean is never above 60. The interval is a whole number of
      seconds, as every corrected rate gives (`CorrectedIntervalIsWhole`). */
  method SecondsOf(interval: int) returns (seconds: seq<int>)
    requires interval > 0
    ensures IsSecondsRule(interval, seconds)
  {
    seconds := [];
    var i := 0;
    while i < 60
      invariant i == |seconds| * interval
      invariant forall k :: 0 <= k < |seconds| ==> seconds[k] == k * interval && seconds[k] < 60
      decreases 60 - i
    {
      seconds := seconds + [i];
      i := i + interval;
    }
  }

  /** Measurements polled less than once a minute get the rule of every minute
      at second 0: with 0.5 polls per minute the interval is 120 seconds and
      the rule holds only second 0, so the job runs every minute. */
  lemma SlowRatePollsEveryMinute(seconds: seq<int>)
    requires IsSecondsRule(IntervalSeconds(CorrectedPollRate(0.5)).Floor, seconds)
    ensures seconds == [0]
  {
    CorrectionExamples();
    assert IntervalSeconds(CorrectedPollRate(0.5)) == 120.0;
    var last := |seconds| - 1;
    assert seconds[last] == last * 120;
  }

  /** For the negative rate -1, which the written checks accept, the
      correction keeps -1 (-60 is a multiple of 60), the interval is -60
      seconds, and the seconds loop never reaches 60. */
  lemma NegativeRateNeverEndsAsWritten(n: nat)
    ensures CheckPollRateAsWritten(Some(-1.0)) == Pass
    ensures CheckPollRate(Some(-1.0)) == Fail(ConfigurationError)
    ensures Round(60.0 / -1.0) == -60 && PrevMultipleOf60(-60) == -60 && 60.0 / (-60) as real == -1.0
    ensures n as real * (60.0 / -1.0) < 60.0
  {
  }

  // ---------------------------------------------------------------------
  // Measurement configuration

  /** `ValidateMeasurement`: the measurement is present, its name a non-blank
      string, its dataType present, and its collectionType present and one
      of SUPPORTED_OPC_COLLECTION_TYPES. A name that is not a string has no
      `trim`, which throws a TypeError. */
  function ValidateMeasurement(mc: Option<MeasurementConfig>): (r: Outcome)
    ensures r == Pass <==>
      && mc.Some?
      && mc.value.name.Str? && !IsBlank(mc.value.name.s)
      && !IsNullish(mc.value.dataType)
      && mc.value.collectionType.Some?
      && mc.value.collectionType.value in {Str("polled"), Str("monitored")}
    ensures mc.None? ==> r == Fail(ConfigurationError)
    ensures r.Fail? && r.error != ConfigurationError ==> r.error == TypeError && mc.Some? && !mc.value.name.Str?
  {
    if mc.None? then Fail(ConfigurationError)
    else
      var m := mc.value;
      match Utils.ValidateConfigurationStringProperty(m.name, true)
      case Fail(e) => Fail(e)
      case Pass =>
        if Utils.ValidateConfigurationProperty(m.dataType).Fail? then Fail(ConfigurationError)
        else if m.collectionType.None? then Fail(ConfigurationError)
        else if !(m.collectionType.value.Str? && m.collectionType.value.s in Utils.SUPPORTED_OPC_COLLECTION_TYPES) then
          Fail(ConfigurationError)
        else Pass
  }

  /** The links `ParseNodes` turns into nodes: the measurement itself when its
      nodeId and field are both truthy, then every entry of a non-empty
      `link` array. */
  function OpcuaLinks(mc: MeasurementConfig): seq<LinkConfig> {
    (if Truthy(mc.nodeId) && Truthy(mc.field) then [mc.own] else [])
    + (if mc.link.Some? && |mc.link.value| > 0 then mc.link.value else [])
  }

  /** A polled measurement whose interval is a positive whole number of
      seconds, as every corrected rate gives. */
  predicate IsPollable(m: Measurement) {
    && m.collection.Polled?
    && m.collection.pollRate > 0.0
    && var iv := IntervalSeconds(m.collection.pollRate);
      iv.Floor as real == iv && iv.Floor >= 1
  }

  /** `_add_polled_measurement`: the rate checks (with negative rates refused),
      the correction, then the nodes. */
  function PolledSpec(mc: MeasurementConfig): (r: Result<MeasurementSpec>)
    ensures r.Ok? <==> CheckPollRate(mc.pollRate) == Pass && ParseLinks(OpcuaLinks(mc), mc.dataType, OpcuaSide).Ok?
    ensures CheckPollRate(mc.pollRate).Fail? ==> r == Err(ConfigurationError)
    ensures r.Ok? ==>
      && r.value.collection == Polled(CorrectedPollRate(mc.pollRate.value))
      && r.value.nodes == ParseLinks(OpcuaLinks(mc), mc.dataType, OpcuaSide).value
      && r.value.deadbandAbsolute == OrZero(mc.deadbandAbsolute)
      && r.value.deadbandRelative == OrZero(mc.deadbandRelative)
  {
    match CheckPollRate(mc.pollRate)
    case Fail(e) => Err(e)
    case Pass =>
      match ParseLinks(OpcuaLinks(mc), mc.dataType, OpcuaSide)
      case Err(e) => Err(e)
      case Ok(nodes) =>
        Ok(MeasurementSpec(mc.name, mc.dataType, mc.tags, nodes, Polled(CorrectedPollRate(mc.pollRate.value)),
          OrZero(mc.deadbandAbsolute), OrZero(mc.deadbandRelative)))
  }

  /** `_add_monitored_measurement`: a monitorResolution must be present. */
  function MonitoredSpec(mc: MeasurementConfig): (r: Result<MeasurementSpec>)
    ensures r.Ok? <==> mc.monitorResolution.Some? && ParseLinks(OpcuaLinks(mc), mc.dataType, OpcuaSide).Ok?
    ensures mc.monitorResolution.None? ==> r == Err(ConfigurationError)
    ensures r.Ok? ==>
      && r.value.collection == Monitored(mc.monitorResolution.value)
      && r.value.nodes == ParseLinks(OpcuaLinks(mc), mc.dataType, OpcuaSide).value
  {
    if mc.monitorResolution.None? then Err(ConfigurationError)
    else
      match ParseLinks(OpcuaLinks(mc), mc.dataType, OpcuaSide)
      case Err(e) => Err(e)
      case Ok(nodes) =>
        Ok(MeasurementSpec(mc.name, mc.dataType, mc.tags, nodes, Monitored(mc.monitorResolution.value),
          OrZero(mc.deadbandAbsolute), OrZero(mc.deadbandRelative)))
  }

  /** One step of `InitializeMeasurements`: validate, then add by collection
      type. */
  function AddSpec(mc: Option<MeasurementConfig>): (r: Result<MeasurementSpec>)
    ensures ValidateMeasurement(mc).Fail? ==> r == Err(ValidateMeasurement(mc).error)
    ensures ValidateMeasurement(mc) == Pass && mc.value.collectionType == Some(Str("polled")) ==> r == PolledSpec(mc.value)
    ensures ValidateMeasurement(mc) == Pass && mc.value.collectionType == Some(Str("monitored")) ==> r == MonitoredSpec(mc.value)
    ensures r.Ok? ==> r.value.name == mc.value.name && r.value.dataType == mc.value.dataType && r.value.tags == mc.value.tags
  {
    match ValidateMeasurement(mc)
    case Fail(e) => Err(e)
    case Pass =>
      if mc.value.collectionType == Some(Str("monitored")) then MonitoredSpec(mc.value)
      else PolledSpec(mc.value)
  }

  /** Every polled measurement the reader accepts has a whole-second interval. */
  lemma AcceptedPolledIsPollable(mc: Option<MeasurementConfig>, m: Measurement)
    requires AddSpec(mc).Ok? && Matches(m, AddSpec(mc).value) && m.collection.Polled?
    ensures IsPollable(m)
  {
    CorrectedIntervalIsWhole(mc.value.pollRate.value);
  }

  /** What adding each measurement on its own gives, in order. */
  function Attempts(mcs: seq<Option<MeasurementConfig>>): (rs: seq<Result<MeasurementSpec>>)
    ensures |rs| == |mcs|
    ensures forall k :: 0 <= k < |mcs| ==> rs[k] == AddSpec(mcs[k])
  {
    seq(|mcs|, k requires 0 <= k < |mcs| => AddSpec(mcs[k]))
  }

  function InitPlan(mcs: seq<Option<MeasurementConfig>>): Plan {
    PlanOf(Attempts(mcs))
  }

  /** The plan passes exactly when every measurement is accepted, and then it
      adds every one of them, in order. */
  lemma InitPlanPasses(mcs: seq<Option<MeasurementConfig>>)
    ensures InitPlan(mcs).outcome == Pass <==> forall k :: 0 <= k < |mcs| ==> AddSpec(mcs[k]).Ok?
    ensures InitPlan(mcs).outcome == Pass ==>
      |InitPlan(mcs).specs| == |mcs| && forall k :: 0 <= k < |mcs| ==> InitPlan(mcs).specs[k] == AddSpec(mcs[k]).value
  {
    PlanOfPasses(Attempts(mcs));
  }

  /** The specs of one collection kind, in order. */
  function OfKind(specs: seq<MeasurementSpec>, polled: bool): (r: seq<MeasurementSpec>)
    ensures |r| <= |specs|
    ensures forall s :: s in r ==> s in specs && s.collection.Polled? == polled
  {
    if specs == [] then []
    else
      var n := |specs| - 1;
      OfKind(specs[..n], polled) + (if specs[n].collection.Polled? == polled then [specs[n]] else [])
  }

  // ---------------------------------------------------------------------
  // The reader

  /** The constructor's checks: the OpcuaConnect check of the input section
      and its url comes first, then the measurements and the write pump must
      be present, and the input type must be exactly "opcua". */
  function CheckReaderConfig(input: Option<InputConfig>, measurementsPresent: bool, writepumpPresent: bool): (r: Outcome)
    ensures r == Pass <==>
      && input.Some?
      && Utils.ValidateConfigurationStringProperty(input.value.url, true) == Pass
      && measurementsPresent && writepumpPresent
      && input.value.inputType == Str(Utils.INPUT_OPCUA)
    ensures input.None? || !measurementsPresent || !writepumpPresent ==> r.Fail?
    ensures r.Fail? && r.error != ConfigurationError ==> input.Some? && !input.value.url.Str?
  {
    var url := if input.Some? then input.value.url else Undefined;
    match OpcuaConnect.CheckConnectConfig(input.Some?, url)
    case Fail(e) => Fail(e)
    case Pass =>
      if !measurementsPresent then Fail(ConfigurationError)
      else if !writepumpPresent then Fail(ConfigurationError)
      else if input.value.inputType != Str(Utils.INPUT_OPCUA) then Fail(ConfigurationError)
      else Pass
  }

  /** A measurements section `[]` or an input type "OPCUA" in capitals: the
      first is accepted, the second refused. */
  lemma ReaderConfigExamples(c: InputConfig)
    requires c.url == Str("opc.tcp://localhost:4334")
    ensures c.inputType == Str("opcua") ==> CheckReaderConfig(Some(c), true, true) == Pass
    ensures c.inputType == Str("OPCUA") ==> CheckReaderConfig(Some(c), true, true) == Fail(ConfigurationError)
    ensures CheckReaderConfig(Some(c), false, true) == Fail(ConfigurationError)
  {
    assert !IsJsWhitespace(c.url.s[0]);
  }

  /** What the constructor keeps of the input section: the section itself and
      `waitSeconds`, which is `failoverTimeout || 5`. */
  datatype ReaderSettings = ReaderSettings(config: InputConfig, waitSeconds: Prim)

  /** The constructor, up to the fields it initialises: a check that fails
      throws its error. */
  function NewReaderSettings(input: Option<InputConfig>, measurementsPresent: bool, writepumpPresent: bool): (r: Result<ReaderSettings>)
    ensures r.Ok? <==> CheckReaderConfig(input, measurementsPresent, writepumpPresent) == Pass
    ensures r.Err? ==> r.error == CheckReaderConfig(input, measurementsPresent, writepumpPresent).error
    ensures r.Ok? ==> r.value.config == input.value && r.value.waitSeconds == Or(input.value.failoverTimeout, Num(5.0))
    ensures r.Ok? ==> Truthy(r.value.waitSeconds)
  {
    match CheckReaderConfig(input, measurementsPresent, writepumpPresent)
    case Fail(e) => Err(e)
    case Pass => Ok(ReaderSettings(input.value, Or(input.value.failoverTimeout, Num(5.0))))
  }

  /** A polling container: the seconds of its recurrence rule and the
      measurements its job polls, in the order they were sorted in. */
  datatype Container = Container(seconds: seq<int>, measurements: seq<Measurement>)

  /** The container key of a pollable measurement: `60 / pollRate`, the
      interval in seconds. `interval.toString()` is one string per interval,
      so the model keys by the interval itself. */
  function KeyOf(m: Measurement): (key: real)
    requires IsPollable(m)
    ensures key >= 1.0 && key.Floor as real == key
  {
    IntervalSeconds(m.collection.pollRate)
  }

  /** Every container holds the rule of its key. */
  predicate ValidContainers(sorted: map<real, Container>) {
    forall key :: key in sorted ==> key >= 1.0 && IsSecondsRule(key.Floor, sorted[key].seconds)
  }

  /** The pollable measurements of `ms` with the key `key`, in their order. */
  function Grouped(ms: seq<Measurement>, key: real): (r: seq<Measurement>)
    ensures |r| <= |ms|
    ensures forall j :: 0 <= j < |r| ==> IsPollable(r[j]) && KeyOf(r[j]) == key
  {
    if ms == [] then []
    else
      var n := |ms| - 1;
      Grouped(ms[..n], key) + (if IsPollable(ms[n]) && KeyOf(ms[n]) == key then [ms[n]] else [])
  }

  /** A measurement is buffered on a monitored change exactly when its status
      is Good, it is valid and it is of its node's type. */
  predicate IsBufferedChange(p: Point) {
    p.opcstatus == Str("Good") && PointIsValid(p) && PointMatchesType(p)
  }

  /** A change is buffered by the monitored handler exactly when polling would
      have kept the same point unchanged. */
  lemma MonitoredAgreesWithPolling(p: Point, prev: Prim)
    ensures IsBufferedChange(p) <==> FilterPoint(p, prev).keep && FilterPoint(p, prev).point == p
  {
    DeadbandNeverSuppressesAsWired(p.value, prev);
  }

  /** The points of one read: `dataValueToPoint(nodes[i], dataValues[i],
      timestamp)` for every node. */
  function ReadResults(nodes: seq<ReadNode>, dvs: seq<DataValue>, customTimestamp: Option<real>, now: real,
                       eval: (Prim, Prim) -> Prim): (r: seq<Point>)
    requires |dvs| == |nodes|
    ensures |r| == |nodes|
    ensures forall k :: 0 <= k < |nodes| ==> r[k] == DataValueToPoint(nodes[k], dvs[k], customTimestamp, now, eval)
  {
    seq(|nodes|, k requires 0 <= k < |nodes| => DataValueToPoint(nodes[k], dvs[k], customTimestamp, now, eval))
  }

  /** Every node of the polled measurements that a container polls. */
  function ContainerNodes(c: Container): set<ReadNode> {
    set j, n | 0 <= j < |c.measurements| && n in c.measurements[j].nodes :: n
  }

  class ReaderOpcua {
    const settings: ReaderSettings
    const measurements: seq<Option<MeasurementConfig>>
    var polledMeasurements: seq<Measurement>
    var monitoredMeasurements: seq<Measurement>
    /** The scheduled jobs, each recorded by the key of the container it polls. */
    var pollers: seq<real>
    var sortedMeasurementsForPolling: map<real, Container>
    var measurementsInitialised: bool
    /** The `pollingCallbackCalled` flag of the last `InitReader`. */
    var pollingCallbackCalled: bool

    ghost predicate Valid()
      reads this
    {
      && (forall m :: m in polledMeasurements ==> IsPollable(m) && DistinctReadNodes(m.nodes))
      && (forall m :: m in monitoredMeasurements ==> DistinctReadNodes(m.nodes))
      && ValidContainers(sortedMeasurementsForPolling)
      && (forall key :: key in sortedMeasurementsForPolling ==>
            forall m :: m in sortedMeasurementsForPolling[key].measurements ==> DistinctReadNodes(m.nodes))
    }

    /** The constructor: no measurement yet, no poller, nothing sorted. */
    constructor (settings: ReaderSettings, measurements: seq<Option<MeasurementConfig>>)
      ensures this.settings == settings && this.measurements == measurements
      ensures polledMeasurements == [] && monitoredMeasurements == []
      ensures pollers == [] && sortedMeasurementsForPolling == map[]
      ensures !measurementsInitialised && !pollingCallbackCalled
      ensures Valid()
    {
      this.settings := settings;
      this.measurements := measurements;
      polledMeasurements := [];
      monitoredMeasurements := [];
      pollers := [];
      sortedMeasurementsForPolling := map[];
      measurementsInitialised := false;
      pollingCallbackCalled := false;
    }

    /** `InitReader` wraps the polling callback with a fresh
        `pollingCallbackCalled` flag; connecting is not part of this model. */
    method InitReader()
      modifies this
      ensures !pollingCallbackCalled
      ensures pollers == old(pollers) && sortedMeasurementsForPolling == old(sortedMeasurementsForPolling)
      ensures polledMeasurements == old(polledMeasurements) && monitoredMeasurements == old(monitoredMeasurements)
      ensures measurementsInitialised == old(measurementsInitialised)
    {
      pollingCallbackCalled := false;
    }

    /** The callback `readerPollingFunction` hands to `StartOPCPolling`. An
        error with pollers running cancels them and clears the pollers and
        the containers; the outer callback is called, with the error flag,
        only the first time (`forwarded`). */
    method PollingCallback(err: bool) returns (forwarded: Option<bool>)
      modifies this
      ensures forwarded == if old(pollingCallbackCalled) then None else Some(err)
      ensures pollingCallbackCalled
      ensures |old(pollers)| > 0 && err ==> pollers == [] && sortedMeasurementsForPolling == map[]
      ensures !(|old(pollers)| > 0 && err) ==>
        pollers == old(pollers) && sortedMeasurementsForPolling == old(sortedMeasurementsForPolling)
      ensures polledMeasurements == old(polledMeasurements) && monitoredMeasurements == old(monitoredMeasurements)
      ensures measurementsInitialised == old(measurementsInitialised)
    {
      if |pollers| > 0 && err {
        pollers := [];
        sortedMeasurementsForPolling := map[];
      }
      if !pollingCallbackCalled {
        pollingCallbackCalled := true;
        forwarded := Some(err);
      } else {
        forwarded := None;
      }
    }

    /** `SortMeasurementPollers`: the measurement joins the container of its
        key, which is created with the key's rule when it does not exist. */
    method SortMeasurementPollers(m: Measurement)
      requires IsPollable(m) && DistinctReadNodes(m.nodes)
      requires Valid()
      modifies this
      ensures Valid()
      ensures SortsInto(old(sortedMeasurementsForPolling), sortedMeasurementsForPolling, m)
      ensures pollers == old(pollers) && pollingCallbackCalled == old(pollingCallbackCalled)
      ensures polledMeasurements == old(polledMeasurements) && monitoredMeasurements == old(monitoredMeasurements)
      ensures measurementsInitialised == old(measurementsInitialised)
    {
      var key := KeyOf(m);
      var seconds := SecondsOf(key.Floor);
      if key in sortedMeasurementsForPolling {
        var c := sortedMeasurementsForPolling[key];
        sortedMeasurementsForPolling := sortedMeasurementsForPolling[key := c.(measurements := c.measurements + [m])];
      } else {
        sortedMeasurementsForPolling := sortedMeasurementsForPolling[key := Container(seconds, [m])];
      }
    }

    /** `StartOPCPolling`: without polled measurements nothing starts (and the
        callback is never called). Otherwise every polled measurement is
        sorted in order, and one job is scheduled per container, in an order
        the model leaves open. */
    method StartOPCPolling() returns (started: bool)
      requires Valid()
      modifies this
      ensures Valid()
      ensures started <==> |polledMeasurements| > 0
      ensures !started ==> sortedMeasurementsForPolling == old(sortedMeasurementsForPolling) && pollers == old(pollers)
      ensures started ==>
        SortedUpTo(sortedMeasurementsForPolling, old(sortedMeasurementsForPolling), polledMeasurements, |polledMeasurements|)
      ensures started ==>
        && |pollers| == |old(pollers)| + |sortedMeasurementsForPolling.Keys|
        && pollers[..|old(pollers)|] == old(pollers)
        && forall key :: key in sortedMeasurementsForPolling <==> key in pollers[|old(pollers)|..]
      ensures polledMeasurements == old(polledMeasurements) && monitoredMeasurements == old(monitoredMeasurements)
      ensures measurementsInitialised == old(measurementsInitialised) && pollingCallbackCalled == old(pollingCallbackCalled)
    {
      if |polledMeasurements| <= 0 {
        return false;
      }
      SortAll();
      SchedulePollers();
      started := true;
    }

    /** The `forEach` of `StartOPCPolling` over the polled measurements. */
    method SortAll()
      requires Valid()
      modifies this
      ensures Valid()
      ensures SortedUpTo(sortedMeasurementsForPolling, old(sortedMeasurementsForPolling), polledMeasurements, |polledMeasurements|)
      ensures pollers == old(pollers)
      ensures polledMeasurements == old(polledMeasurements) && monitoredMeasurements == old(monitoredMeasurements)
      ensures measurementsInitialised == old(measurementsInitialised) && pollingCallbackCalled == old(pollingCallbackCalled)
    {
      ghost var sorted0 := sortedMeasurementsForPolling;
      var j := 0;
      SortedUpToStart(sorted0, polledMeasurements);
      while j < |polledMeasurements|
        invariant 0 <= j <= |polledMeasurements| && Valid()
        invariant polledMeasurements == old(polledMeasurements) && monitoredMeasurements == old(monitoredMeasurements)
        invariant pollers == old(pollers)
        invariant measurementsInitialised == old(measurementsInitialised) && pollingCallbackCalled == old(pollingCallbackCalled)
        invariant SortedUpTo(sortedMeasurementsForPolling, sorted0, polledMeasurements, j)
      {
        var m := polledMeasurements[j];
        assert m in polledMeasurements;
        ghost var before := sortedMeasurementsForPolling;
        SortMeasurementPollers(m);
        SortStep(before, sortedMeasurementsForPolling, sorted0, polledMeasurements, j);
        j := j + 1;
      }
    }

    /** One job per container, appended to `pollers`. */
    method SchedulePollers()
      modifies this
      ensures |pollers| == |old(pollers)| + |sortedMeasurementsForPolling.Keys|
      ensures pollers[..|old(pollers)|] == old(pollers)
      ensures forall key :: key in sortedMeasurementsForPolling <==> key in pollers[|old(pollers)|..]
      ensures sortedMeasurementsForPolling == old(sortedMeasurementsForPolling)
      ensures polledMeasurements == old(polledMeasurements) && monitoredMeasurements == old(monitoredMeasurements)
      ensures measurementsInitialised == old(measurementsInitialised) && pollingCallbackCalled == old(pollingCallbackCalled)
    {
      var remaining := sortedMeasurementsForPolling.Keys;
      var added: seq<real> := [];
      while remaining != {}
        invariant remaining <= sortedMeasurementsForPolling.Keys
        invariant forall key :: key in sortedMeasurementsForPolling <==> key in remaining || key in added
        invariant forall key :: key in added ==> key !in remaining
        invariant |added| + |remaining| == |sortedMeasurementsForPolling.Keys|
        invariant pollers == old(pollers) + added
        invariant sortedMeasurementsForPolling == old(sortedMeasurementsForPolling)
        invariant polledMeasurements == old(polledMeasurements) && monitoredMeasurements == old(monitoredMeasurements)
        invariant measurementsInitialised == old(measurementsInitialised) && pollingCallbackCalled == old(pollingCallbackCalled)
        decreases |remaining|
      {
        var key := PickKey(remaining);
        pollers := pollers + [key];
        added := added + [key];
        remaining := remaining - {key};
      }
      assert pollers[|old(pollers)|..] == added;
    }

    /** The timestamp a poll's read stamps its points with:
        `useSourceTimestamp ? null : now`. */
    function PollTimestamp(now: real): Option<real>
      reads this
    {
      if Truthy(settings.config.useSourceTimeStamp) then None else Some(now)
    }

    /** The read of one measurement in `_poll_job`: a read error (`read` is
        None) is skipped; otherwise the points go through the filter, the
        kept ones are the batch for the buffer, and each node records its
        point as the filter says. */
    method PollMeasurement(m: Measurement, read: Option<seq<DataValue>>, now: real, eval: (Prim, Prim) -> Prim)
      returns (batch: seq<Point>)
      requires DistinctReadNodes(m.nodes)
      requires read.Some? ==> |read.value| == |m.nodes|
      modifies m.nodes
      ensures read.None? ==> batch == [] && unchanged(m.nodes)
      ensures read.Some? ==>
        var results := ReadResults(m.nodes, read.value, PollTimestamp(now), now, eval);
        batch == KeptPoints(results, old(LastValues(results)))
      ensures read.Some? ==>
        var results := ReadResults(m.nodes, read.value, PollTimestamp(now), now, eval);
        forall k :: 0 <= k < |results| ==>
          Recorded(results[k], old(results[k].node.lastValue), old(results[k].node.lastOpcstatus))
      ensures forall p :: p in batch ==> IsBufferedChange(p) && p.node in m.nodes
    {
      if read.None? {
        return [];
      }
      var results := ReadResults(m.nodes, read.value, PollTimestamp(now), now, eval);
      assert NodesOf(results) <= set n | n in m.nodes;
      batch := FilterResults(results);
      KeptPointsAreGood(results, old(LastValues(results)));
    }

    /** `_poll_job` for one container: a closed session or an invalid channel
        reports an error and reads nothing; otherwise every measurement is
        read in order (`replies[j]` is what the read of measurement `j`
        returns), and a measurement with kept points yields one batch. */
    method PollJob(c: Container, sessionUsable: bool, replies: seq<Option<seq<DataValue>>>, now: real,
                   eval: (Prim, Prim) -> Prim) returns (error: bool, batches: seq<Batch>)
      requires |replies| == |c.measurements|
      requires forall j :: 0 <= j < |replies| ==>
        DistinctReadNodes(c.measurements[j].nodes) &&
        (replies[j].Some? ==> |replies[j].value| == |c.measurements[j].nodes|)
      modifies ContainerNodes(c)
      ensures error <==> !sessionUsable
      ensures !sessionUsable ==> batches == []
      ensures |batches| <= |c.measurements|
      ensures forall b :: b in batches ==>
        && b.measurement in c.measurements
        && |b.points| > 0
        && forall p :: p in b.points ==> IsBufferedChange(p) && p.node in b.measurement.nodes
    {
      batches := [];
      if !sessionUsable {
        return true, [];
      }
      var j := 0;
      while j < |c.measurements|
        invariant 0 <= j <= |c.measurements|
        invariant |batches| <= j
        invariant forall b :: b in batches ==>
          && b.measurement in c.measurements
          && |b.points| > 0
          && forall p :: p in b.points ==> IsBufferedChange(p) && p.node in b.measurement.nodes
      {
        var m := c.measurements[j];
        assert (set n | n in m.nodes) <= ContainerNodes(c);
        var batch := PollMeasurement(m, replies[j], now, eval);
        if |batch| > 0 {
          batches := batches + [Batch(m, batch)];
        }
        j := j + 1;
      }
      error := false;
    }

    /** The "changed" handler of a monitored item: the point is buffered when
        its status is Good, it is valid and it is of its node's type, and the
        node records its value and status in every case. */
    method OnMonitoredChange(node: ReadNode, dv: DataValue, now: real, eval: (Prim, Prim) -> Prim)
      returns (buffered: Option<Point>)
      modifies node
      ensures var p := DataValueToPoint(node, dv, None, now, eval);
        && buffered == (if IsBufferedChange(p) then Some(p) else None)
        && node.lastValue == p.value && node.lastOpcstatus == p.opcstatus
    {
      var p := DataValueToPoint(node, dv, None, now, eval);
      buffered := if IsBufferedChange(p) then Some(p) else None;
      UpdatePointLastData(p);
    }

    /** `_add_polled_measurement`, with the rate checks as intended. */
    method AddPolled(mc: MeasurementConfig) returns (r: Outcome)
      requires Valid()
      modifies this`polledMeasurements
      ensures Valid()
      ensures r == Pass <==> PolledSpec(mc).Ok?
      ensures r.Fail? ==> r.error == PolledSpec(mc).error && polledMeasurements == old(polledMeasurements)
      ensures r == Pass ==> AddedAsPlanned(old(polledMeasurements), polledMeasurements, [PolledSpec(mc).value])
    {
      var check := CheckPollRate(mc.pollRate);
      if check.Fail? {
        return check;
      }
      var pollRate, corrected := CorrectPollRate(mc.pollRate.value);
      var nodes := ParseNodes(OpcuaLinks(mc), mc.dataType, OpcuaSide);
      if nodes.Err? {
        return Fail(nodes.error);
      }
      var m := Measurement(mc.name, mc.dataType, mc.tags, nodes.value, Polled(pollRate),
        OrZero(mc.deadbandAbsolute), OrZero(mc.deadbandRelative));
      CorrectedIntervalIsWhole(mc.pollRate.value);
      AddedOne(polledMeasurements, m, PolledSpec(mc).value);
      polledMeasurements := polledMeasurements + [m];
      r := Pass;
    }

    /** `_add_monitored_measurement`. */
    method AddMonitored(mc: MeasurementConfig) returns (r: Outcome)
      requires Valid()
      modifies this`monitoredMeasurements
      ensures Valid()
      ensures r == Pass <==> MonitoredSpec(mc).Ok?
      ensures r.Fail? ==> r.error == MonitoredSpec(mc).error && monitoredMeasurements == old(monitoredMeasurements)
      ensures r == Pass ==> AddedAsPlanned(old(monitoredMeasurements), monitoredMeasurements, [MonitoredSpec(mc).value])
    {
      if mc.monitorResolution.None? {
        return Fail(ConfigurationError);
      }
      var nodes := ParseNodes(OpcuaLinks(mc), mc.dataType, OpcuaSide);
      if nodes.Err? {
        return Fail(nodes.error);
      }
      var m := Measurement(mc.name, mc.dataType, mc.tags, nodes.value, Monitored(mc.monitorResolution.value),
        OrZero(mc.deadbandAbsolute), OrZero(mc.deadbandRelative));
      AddedOne(monitoredMeasurements, m, MonitoredSpec(mc).value);
      monitoredMeasurements := monitoredMeasurements + [m];
      r := Pass;
    }

    /** One measurement of `InitializeMeasurements`: validate it, then add it
        by its collection type. Validation leaves only "monitored" and
        "polled", so the `default` branch cannot be reached. */
    method AddMeasurement(mc: Option<MeasurementConfig>) returns (r: Outcome)
      requires Valid()
      modifies this`polledMeasurements, this`monitoredMeasurements
      ensures Valid()
      ensures r == Pass <==> AddSpec(mc).Ok?
      ensures r.Fail? ==> r.error == AddSpec(mc).error
      ensures r.Fail? ==> polledMeasurements == old(polledMeasurements) && monitoredMeasurements == old(monitoredMeasurements)
      ensures r == Pass && AddSpec(mc).value.collection.Polled? ==>
        && AddedAsPlanned(old(polledMeasurements), polledMeasurements, [AddSpec(mc).value])
        && monitoredMeasurements == old(monitoredMeasurements)
      ensures r == Pass && !AddSpec(mc).value.collection.Polled? ==>
        && AddedAsPlanned(old(monitoredMeasurements), monitoredMeasurements, [AddSpec(mc).value])
        && polledMeasurements == old(polledMeasurements)
    {
      var v := ValidateMeasurement(mc);
      if v.Fail? {
        return v;
      }
      if mc.value.collectionType == Some(Str(Utils.COLLECTION_MONITORED)) {
        r := AddMonitored(mc.value);
      } else {
        r := AddPolled(mc.value);
      }
    }

    /** `InitializeMeasurements`: a no-op once it has succeeded. Otherwise the
        measurements are added in order until one throws; the measurements
        before it stay added, and the flag is set only after the last one,
        so a failed call leaves it unset. */
    method InitializeMeasurements() returns (r: Outcome)
      requires Valid()
      modifies this
      ensures Valid()
      ensures old(measurementsInitialised) ==>
        && r == Pass && measurementsInitialised
        && polledMeasurements == old(polledMeasurements) && monitoredMeasurements == old(monitoredMeasurements)
      ensures !old(measurementsInitialised) ==>
        && r == InitPlan(measurements).outcome
        && (measurementsInitialised <==> r == Pass)
        && AddedAsPlanned(old(polledMeasurements), polledMeasurements, OfKind(InitPlan(measurements).specs, true))
        && AddedAsPlanned(old(monitoredMeasurements), monitoredMeasurements, OfKind(InitPlan(measurements).specs, false))
      ensures pollers == old(pollers) && sortedMeasurementsForPolling == old(sortedMeasurementsForPolling)
      ensures pollingCallbackCalled == old(pollingCallbackCalled)
    {
      if measurementsInitialised {
        return Pass;
      }
      r := AddAll();
      if r == Pass {
        measurementsInitialised := true;
      }
    }

    /** The loop of `InitializeMeasurements`: every measurement in order,
        until one throws. */
    method AddAll() returns (r: Outcome)
      requires Valid()
      modifies this`polledMeasurements, this`monitoredMeasurements
      ensures Valid()
      ensures r == InitPlan(measurements).outcome
      ensures AddedAsPlanned(old(polledMeasurements), polledMeasurements, OfKind(InitPlan(measurements).specs, true))
      ensures AddedAsPlanned(old(monitoredMeasurements), monitoredMeasurements, OfKind(InitPlan(measurements).specs, false))
    {
      ghost var polled0, monitored0 := polledMeasurements, monitoredMeasurements;
      ghost var rs := Attempts(measurements);
      var j := 0;
      InitUpToStart(polled0, monitored0, rs);
      while j < |measurements|
        invariant 0 <= j <= |measurements| && Valid()
        invariant InitUpTo(polled0, monitored0, polledMeasurements, monitoredMeasurements, rs, j)
      {
        var o := AddNext(j, polled0, monitored0, rs);
        if o.Fail? {
          return o;
        }
        j := j + 1;
      }
      InitComplete(polled0, monitored0, polledMeasurements, monitoredMeasurements, rs);
      r := Pass;
    }

    /** One pass of the loop of `InitializeMeasurements`. */
    method AddNext(j: nat, ghost polled0: seq<Measurement>, ghost monitored0: seq<Measurement>,
                   ghost rs: seq<Result<MeasurementSpec>>) returns (o: Outcome)
      requires Valid() && j < |measurements| && rs == Attempts(measurements)
      requires InitUpTo(polled0, monitored0, polledMeasurements, monitoredMeasurements, rs, j)
      modifies this`polledMeasurements, this`monitoredMeasurements
      ensures Valid()
      ensures o == Pass ==> InitUpTo(polled0, monitored0, polledMeasurements, monitoredMeasurements, rs, j + 1)
      ensures o.Fail? ==>
        && o == PlanOf(rs).outcome
        && AddedAsPlanned(polled0, polledMeasurements, OfKind(PlanOf(rs).specs, true))
        && AddedAsPlanned(monitored0, monitoredMeasurements, OfKind(PlanOf(rs).specs, false))
    {
      ghost var polledA, monitoredA := polledMeasurements, monitoredMeasurements;
      o := AddMeasurement(measurements[j]);
      assert rs[j] == AddSpec(measurements[j]);
      if o.Fail? {
        InitStopsAt(polled0, monitored0, polledMeasurements, monitoredMeasurements, rs, j);
        return;
      }
      InitStep(polled0, monitored0, polledA, monitoredA, polledMeasurements, monitoredMeasurements, rs, j);
    }
  }

  /** Some key of a non-empty set of keys. */
  method PickKey(keys: set<real>) returns (key: real)
    requires keys != {}
    ensures key in keys
  {
    assert exists k :: k in keys by {
      if forall k :: k !in keys { assert false; }
    }
    key :| key in keys;
  }

  /** `after` is `before` with `m` appended to the container of its key,
      which is created when it does not exist; a container that exists keeps
      its rule, and every other container is unchanged. */
  predicate SortsInto(before: map<real, Container>, after: map<real, Container>, m: Measurement)
    requires IsPollable(m)
  {
    && after.Keys == before.Keys + {KeyOf(m)}
    && after[KeyOf(m)].measurements == Prior(before, KeyOf(m)) + [m]
    && (KeyOf(m) in before ==> after[KeyOf(m)].seconds == before[KeyOf(m)].seconds)
    && forall key :: key in before && key != KeyOf(m) ==> after[key] == before[key]
  }

  /** `d` is `d0` after the first `j` measurements of `ms` were sorted in:
      its keys are those of `d0` and those of the sorted measurements, and
      each container holds what it held, then its measurements in order. */
  ghost predicate SortedUpTo(d: map<real, Container>, d0: map<real, Container>, ms: seq<Measurement>, j: nat)
    requires j <= |ms|
  {
    && (forall key :: key in d <==> key in d0 || |Grouped(ms[..j], key)| > 0)
    && (forall key :: key in d ==> d[key].measurements == Prior(d0, key) + Grouped(ms[..j], key))
  }

  lemma SortedUpToStart(d0: map<real, Container>, ms: seq<Measurement>)
    ensures SortedUpTo(d0, d0, ms, 0)
  {
    assert ms[..0] == [];
  }

  lemma SortStep(before: map<real, Container>, after: map<real, Container>, d0: map<real, Container>,
                 ms: seq<Measurement>, j: nat)
    requires j < |ms| && IsPollable(ms[j])
    requires SortedUpTo(before, d0, ms, j)
    requires SortsInto(before, after, ms[j])
    ensures SortedUpTo(after, d0, ms, j + 1)
  {
    GroupedSnoc(ms, j);
    SortStepKeys(before, after, d0, ms, j);
    SortStepContents(before, after, d0, ms, j);
  }

  lemma SortStepKeys(before: map<real, Container>, after: map<real, Container>, d0: map<real, Container>,
                     ms: seq<Measurement>, j: nat)
    requires j < |ms| && IsPollable(ms[j])
    requires forall key :: key in before <==> key in d0 || |Grouped(ms[..j], key)| > 0
    requires after.Keys == before.Keys + {KeyOf(ms[j])}
    requires forall key ::
      Grouped(ms[..j + 1], key) == Grouped(ms[..j], key) + (if KeyOf(ms[j]) == key then [ms[j]] else [])
    ensures forall key :: key in after <==> key in d0 || |Grouped(ms[..j + 1], key)| > 0
  {
  }

  lemma SortStepContents(before: map<real, Container>, after: map<real, Container>, d0: map<real, Container>,
                         ms: seq<Measurement>, j: nat)
    requires j < |ms| && IsPollable(ms[j])
    requires forall key :: key in before <==> key in d0 || |Grouped(ms[..j], key)| > 0
    requires forall key :: key in before ==> before[key].measurements == Prior(d0, key) + Grouped(ms[..j], key)
    requires SortsInto(before, after, ms[j])
    requires forall key ::
      Grouped(ms[..j + 1], key) == Grouped(ms[..j], key) + (if KeyOf(ms[j]) == key then [ms[j]] else [])
    ensures forall key :: key in after ==> after[key].measurements == Prior(d0, key) + Grouped(ms[..j + 1], key)
  {
    forall key | key in after
      ensures after[key].measurements == Prior(d0, key) + Grouped(ms[..j + 1], key)
    {
      SortStepAt(before, after, ms[j], key, Prior(d0, key), Grouped(ms[..j], key), Grouped(ms[..j + 1], key));
    }
  }

  /** One container after one step: it held `prior + grouped` (nothing
      when it did not exist), and it grows by the measurement exactly when
      the key is that measurement's. */
  lemma SortStepAt(before: map<real, Container>, after: map<real, Container>, m: Measurement, key: real,
                   prior: seq<Measurement>, grouped: seq<Measurement>, grouped': seq<Measurement>)
    requires IsPollable(m) && SortsInto(before, after, m) && key in after
    requires key in before ==> before[key].measurements == prior + grouped
    requires key !in before ==> prior == [] && grouped == []
    requires grouped' == grouped + (if KeyOf(m) == key then [m] else [])
    ensures after[key].measurements == prior + grouped'
  {
    if key == KeyOf(m) {
      assert Prior(before, key) == prior + grouped;
    } else {
      assert after[key] == before[key];
    }
  }

  /** One more measurement of `ms` extends each group by at most itself. */
  lemma GroupedSnoc(ms: seq<Measurement>, j: nat)
    requires j < |ms| && IsPollable(ms[j])
    ensures forall key ::
      Grouped(ms[..j + 1], key) == Grouped(ms[..j], key) + (if KeyOf(ms[j]) == key then [ms[j]] else [])
  {
    assert ms[..j + 1][..j] == ms[..j];
  }

  /** `Prior(d, key)`: the measurements the container of `key` held, or none. */
  function Prior(d: map<real, Container>, key: real): seq<Measurement> {
    if key in d then d[key].measurements else []
  }

  /** The first `j` attempts were all accepted and added, in order, each to
      the list of its kind. */
  ghost predicate InitUpTo(polled0: seq<Measurement>, monitored0: seq<Measurement>,
                           polled: seq<Measurement>, monitored: seq<Measurement>,
                           rs: seq<Result<MeasurementSpec>>, j: nat)
    requires j <= |rs|
  {
    && PlanOf(rs[..j]).outcome == Pass
    && AddedAsPlanned(polled0, polled, OfKind(PlanOf(rs[..j]).specs, true))
    && AddedAsPlanned(monitored0, monitored, OfKind(PlanOf(rs[..j]).specs, false))
  }

  lemma InitUpToStart(polled0: seq<Measurement>, monitored0: seq<Measurement>, rs: seq<Result<MeasurementSpec>>)
    ensures InitUpTo(polled0, monitored0, polled0, monitored0, rs, 0)
  {
    assert rs[..0] == [];
  }

  /** A loop that went through every measurement passes with the whole plan. */
  lemma InitComplete(polled0: seq<Measurement>, monitored0: seq<Measurement>,
                     polled: seq<Measurement>, monitored: seq<Measurement>, rs: seq<Result<MeasurementSpec>>)
    requires InitUpTo(polled0, monitored0, polled, monitored, rs, |rs|)
    ensures PlanOf(rs).outcome == Pass
    ensures AddedAsPlanned(polled0, polled, OfKind(PlanOf(rs).specs, true))
    ensures AddedAsPlanned(monitored0, monitored, OfKind(PlanOf(rs).specs, false))
  {
    assert rs[..|rs|] == rs;
  }

  /** One more accepted measurement, added to the list of its kind. */
  lemma InitStep(polled0: seq<Measurement>, monitored0: seq<Measurement>,
                 polledA: seq<Measurement>, monitoredA: seq<Measurement>,
                 polledB: seq<Measurement>, monitoredB: seq<Measurement>,
                 rs: seq<Result<MeasurementSpec>>, j: nat)
    requires j < |rs| && InitUpTo(polled0, monitored0, polledA, monitoredA, rs, j)
    requires rs[j].Ok?
    requires rs[j].value.collection.Polled? ==> AddedAsPlanned(polledA, polledB, [rs[j].value]) && monitoredB == monitoredA
    requires !rs[j].value.collection.Polled? ==> AddedAsPlanned(monitoredA, monitoredB, [rs[j].value]) && polledB == polledA
    ensures InitUpTo(polled0, monitored0, polledB, monitoredB, rs, j + 1)
  {
    var plan := PlanOf(rs[..j]);
    var spec := rs[j].value;
    PlanNext(rs, j);
    OfKindSnoc(plan.specs, spec, true);
    OfKindSnoc(plan.specs, spec, false);
    if spec.collection.Polled? {
      AddedAsPlannedSnoc(polled0, polledA, polledB, OfKind(plan.specs, true), spec);
    } else {
      AddedAsPlannedSnoc(monitored0, monitoredA, monitoredB, OfKind(plan.specs, false), spec);
    }
  }

  /** A refused measurement ends the plan with its error, after the
      measurements before it. */
  lemma InitStopsAt(polled0: seq<Measurement>, monitored0: seq<Measurement>,
                    polled: seq<Measurement>, monitored: seq<Measurement>,
                    rs: seq<Result<MeasurementSpec>>, j: nat)
    requires j < |rs| && InitUpTo(polled0, monitored0, polled, monitored, rs, j)
    requires rs[j].Err?
    ensures PlanOf(rs).outcome == Fail(rs[j].error)
    ensures AddedAsPlanned(polled0, polled, OfKind(PlanOf(rs).specs, true))
    ensures AddedAsPlanned(monitored0, monitored, OfKind(PlanOf(rs).specs, false))
  {
    PlanNext(rs, j);
    PlanStopsAtFailure(rs, j + 1);
  }

  lemma OfKindSnoc(specs: seq<MeasurementSpec>, spec: MeasurementSpec, polled: bool)
    ensures OfKind(specs + [spec], polled) == OfKind(specs, polled) + (if spec.collection.Polled? == polled then [spec] else [])
  {
    assert (specs + [spec])[..|specs|] == specs;
  }

}
