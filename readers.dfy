/** What the two readers share: the measurement a reader stores, the parse
    of a measurement's links into nodes (readers/readpump_opcua.js and
    readers/readpump_mqtt.js each have a `ParseNodes`, the same but for the
    field that names the source), and the order in which
    `InitializeMeasurements` adds measurements until one throws. */
module Readers {
  import opened Js
  import opened Outcomes
  import opened Points
  import opened Config
  import Utils

  /** `node.use_calc && node.calc != null`: whether a reader applies the
      node's compiled `calc` to a value it reads. */
  predicate CalcApplies(n: NodeConfig) {
    Truthy(n.useCalc) && n.calcSource.Some?
  }

  /** The points a reader hands to `AddPointsToBuffer`, with their
      measurement. */
  datatype Batch = Batch(measurement: Measurement, points: seq<Point>)

  // ---------------------------------------------------------------------
  // Links and nodes

  /** Which reader parses a link: the OPC-UA reader reads `in_opcua` into
      the node's `nodeId`, the MQTT reader reads `in_mqtt` into its `topic`. */
  datatype Side = OpcuaSide | MqttSide

  /** The field of a link that names where its value is read from. */
  function LinkSource(l: LinkConfig, side: Side): Prim {
    match side
    case OpcuaSide => l.inOpcua
    case MqttSide => l.inMqtt
  }

  /** The node `parseLink` builds for a link: the `calc` source is kept when
      it is truthy, and `use_calc` is `Boolean(calc)`. */
  function LinkNode(l: LinkConfig, dataType: Prim, side: Side): NodeConfig {
    var compiled := if Truthy(l.calcSource) then Some(l.calcSource) else None;
    match side
    case OpcuaSide => NodeConfig(l.inOpcua, Undefined, l.outInflux, l.outOpcua, l.outMqtt, dataType, compiled, Bool(Truthy(l.calcSource)))
    case MqttSide => NodeConfig(Undefined, l.inMqtt, l.outInflux, l.outOpcua, l.outMqtt, dataType, compiled, Bool(Truthy(l.calcSource)))
  }

  /** `parseLink` over the links in order: every source field must be a
      non-blank string, and the first that is not stops the parse with its
      error. */
  function ParseLinks(links: seq<LinkConfig>, dataType: Prim, side: Side): Result<seq<NodeConfig>> {
    if links == [] then Ok([])
    else
      var n := |links| - 1;
      match ParseLinks(links[..n], dataType, side)
      case Err(e) => Err(e)
      case Ok(nodes) =>
        match Utils.ValidateConfigurationStringProperty(LinkSource(links[n], side), true)
        case Fail(e) => Err(e)
        case Pass => Ok(nodes + [LinkNode(links[n], dataType, side)])
  }

  /** The parse succeeds exactly when every link has a non-blank string in
      its source field, and then builds one node per link, in order; when it
      fails, its error is that of some link. */
  lemma {:induction false} ParseLinksAccepts(links: seq<LinkConfig>, dataType: Prim, side: Side)
    ensures var r := ParseLinks(links, dataType, side);
      r.Ok? <==> forall k :: 0 <= k < |links| ==> LinkAccepted(links[k], side)
    ensures var r := ParseLinks(links, dataType, side);
      r.Ok? ==> |r.value| == |links| && forall k :: 0 <= k < |links| ==> r.value[k] == LinkNode(links[k], dataType, side)
    ensures var r := ParseLinks(links, dataType, side);
      r.Err? ==> exists k :: 0 <= k < |links| && Utils.ValidateConfigurationStringProperty(LinkSource(links[k], side), true) == Fail(r.error)
  {
    if links != [] {
      var n := |links| - 1;
      ParseLinksAccepts(links[..n], dataType, side);
      assert forall k :: 0 <= k < n ==> links[..n][k] == links[k];
    }
  }

  /** A link whose source field is a non-blank string. */
  predicate LinkAccepted(l: LinkConfig, side: Side) {
    Utils.ValidateConfigurationStringProperty(LinkSource(l, side), true) == Pass
  }

  /** `ParseNodes`: one fresh node per link, in order, or the error of the
      first link without a usable source field. */
  method ParseNodes(links: seq<LinkConfig>, dataType: Prim, side: Side) returns (r: Result<seq<ReadNode>>)
    ensures r.Ok? <==> ParseLinks(links, dataType, side).Ok?
    ensures r.Err? ==> r.error == ParseLinks(links, dataType, side).error
    ensures r.Ok? ==> ConfigsOf(r.value) == ParseLinks(links, dataType, side).value
    ensures r.Ok? ==> DistinctReadNodes(r.value)
    ensures r.Ok? ==> forall n :: n in r.value ==> fresh(n) && n.lastValue == Undefined && n.lastOpcstatus == Undefined
  {
    var nodes: seq<ReadNode> := [];
    var j := 0;
    while j < |links|
      invariant 0 <= j <= |links|
      invariant ParseLinks(links[..j], dataType, side) == Ok(ConfigsOf(nodes))
      invariant DistinctReadNodes(nodes)
      invariant forall n :: n in nodes ==> fresh(n) && n.lastValue == Undefined && n.lastOpcstatus == Undefined
    {
      var check := Utils.ValidateConfigurationStringProperty(LinkSource(links[j], side), true);
      ParseLinksSnoc(links, j, dataType, side);
      if check.Fail? {
        LinksStopAtFailure(links, j + 1, dataType, side);
        return Err(check.error);
      }
      var node := new ReadNode(LinkNode(links[j], dataType, side));
      ConfigsOfSnoc(nodes, node);
      assert node !in nodes;
      DistinctSnoc(nodes, node);
      nodes := nodes + [node];
      j := j + 1;
    }
    assert links[..j] == links;
    r := Ok(nodes);
  }

  /** A node not yet in a list of distinct nodes keeps it distinct. */
  lemma DistinctSnoc(nodes: seq<ReadNode>, node: ReadNode)
    requires DistinctReadNodes(nodes) && node !in nodes
    ensures DistinctReadNodes(nodes + [node])
  {
    var s := nodes + [node];
    forall i, j | 0 <= i < j < |s| ensures s[i] != s[j] {
      assert s[i] == nodes[i];
    }
  }

  /** One more link either fails the parse with its own error or adds its node. */
  lemma ParseLinksSnoc(links: seq<LinkConfig>, j: nat, dataType: Prim, side: Side)
    requires j < |links| && ParseLinks(links[..j], dataType, side).Ok?
    ensures Utils.ValidateConfigurationStringProperty(LinkSource(links[j], side), true).Fail? ==>
      ParseLinks(links[..j + 1], dataType, side) == Err(Utils.ValidateConfigurationStringProperty(LinkSource(links[j], side), true).error)
    ensures Utils.ValidateConfigurationStringProperty(LinkSource(links[j], side), true) == Pass ==>
      ParseLinks(links[..j + 1], dataType, side) == Ok(ParseLinks(links[..j], dataType, side).value + [LinkNode(links[j], dataType, side)])
  {
    assert links[..j + 1][..j] == links[..j];
  }

  lemma ConfigsOfSnoc(nodes: seq<ReadNode>, n: ReadNode)
    ensures ConfigsOf(nodes + [n]) == ConfigsOf(nodes) + [n.config]
  {
  }

  /** A parse that fails on a prefix fails the same way on the whole. */
  lemma {:induction false} LinksStopAtFailure(links: seq<LinkConfig>, j: nat, dataType: Prim, side: Side)
    requires 0 < j <= |links|
    requires ParseLinks(links[..j], dataType, side).Err?
    ensures ParseLinks(links, dataType, side) == ParseLinks(links[..j], dataType, side)
    decreases |links| - j
  {
    if j < |links| {
      var n := |links| - 1;
      assert links[..n][..j] == links[..j];
      if j < n {
        LinksStopAtFailure(links[..n], j, dataType, side);
      } else {
        assert links[..n] == links[..j];
      }
    } else {
      assert links[..j] == links;
    }
  }

  // ---------------------------------------------------------------------
  // Measurements and the order they are added in

  /** A measurement as the reader stores it, with the configuration of its
      nodes in place of the node objects. */
  datatype MeasurementSpec = MeasurementSpec(
    name: Prim,
    dataType: Prim,
    tags: Option<Tags>,
    nodes: seq<NodeConfig>,
    collection: Collection,
    deadbandAbsolute: real,
    deadbandRelative: real)

  /** The stored measurement `m` is the one `spec` describes. */
  predicate Matches(m: Measurement, spec: MeasurementSpec) {
    && m.name == spec.name && m.dataType == spec.dataType && m.tags == spec.tags
    && ConfigsOf(m.nodes) == spec.nodes
    && m.collection == spec.collection
    && m.deadbandAbsolute == spec.deadbandAbsolute && m.deadbandRelative == spec.deadbandRelative
  }

  /** The measurements `InitializeMeasurements` adds, in order, and how it
      ends: it stops at the first measurement that throws. */
  datatype Plan = Plan(specs: seq<MeasurementSpec>, outcome: Outcome)

  /** The attempts up to the first error, which ends the plan. */
  function PlanOf(rs: seq<Result<MeasurementSpec>>): (r: Plan)
    ensures |r.specs| <= |rs|
    ensures r.outcome.Pass? ==> |r.specs| == |rs|
    ensures forall j :: 0 <= j < |r.specs| ==> rs[j] == Ok(r.specs[j])
  {
    if rs == [] then Plan([], Pass)
    else
      var n := |rs| - 1;
      var p := PlanOf(rs[..n]);
      assert forall j :: 0 <= j < n ==> rs[..n][j] == rs[j];
      if p.outcome.Fail? then p
      else
        match rs[n]
        case Err(e) => Plan(p.specs, Fail(e))
        case Ok(spec) => Plan(p.specs + [spec], Pass)
  }

  /** A plan passes exactly when every attempt is accepted, and then it adds
      every one of them, in order. */
  lemma {:induction false} PlanOfPasses(rs: seq<Result<MeasurementSpec>>)
    ensures PlanOf(rs).outcome == Pass <==> forall k :: 0 <= k < |rs| ==> rs[k].Ok?
    ensures PlanOf(rs).outcome == Pass ==>
      |PlanOf(rs).specs| == |rs| && forall k :: 0 <= k < |rs| ==> PlanOf(rs).specs[k] == rs[k].value
  {
    if rs != [] {
      var n := |rs| - 1;
      PlanOfPasses(rs[..n]);
      assert forall k :: 0 <= k < n ==> rs[..n][k] == rs[k];
    }
  }

  /** `after` is `before` followed by measurements that match `specs`. */
  predicate AddedAsPlanned(before: seq<Measurement>, after: seq<Measurement>, specs: seq<MeasurementSpec>) {
    && |after| == |before| + |specs|
    && after[..|before|] == before
    && forall k :: 0 <= k < |specs| ==> Matches(after[|before| + k], specs[k])
  }

  /** After a passing prefix, the next attempt either adds its measurement
      or ends the plan with its error. */
  lemma PlanNext(rs: seq<Result<MeasurementSpec>>, j: nat)
    requires j < |rs| && PlanOf(rs[..j]).outcome == Pass
    ensures rs[j].Ok? ==> PlanOf(rs[..j + 1]) == Plan(PlanOf(rs[..j]).specs + [rs[j].value], Pass)
    ensures rs[j].Err? ==> PlanOf(rs[..j + 1]) == Plan(PlanOf(rs[..j]).specs, Fail(rs[j].error))
  {
    assert rs[..j + 1][..j] == rs[..j];
  }

  /** A plan that fails on a prefix fails the same way on the whole. */
  lemma {:induction false} PlanStopsAtFailure(rs: seq<Result<MeasurementSpec>>, j: nat)
    requires 0 < j <= |rs|
    requires PlanOf(rs[..j]).outcome.Fail?
    ensures PlanOf(rs) == PlanOf(rs[..j])
    decreases |rs| - j
  {
    if j < |rs| {
      var n := |rs| - 1;
      assert rs[..n][..j] == rs[..j];
      if j < n {
        PlanStopsAtFailure(rs[..n], j);
      } else {
        assert rs[..n] == rs[..j];
      }
    } else {
      assert rs[..j] == rs;
    }
  }

  lemma AddedOne(before: seq<Measurement>, m: Measurement, spec: MeasurementSpec)
    requires Matches(m, spec)
    ensures AddedAsPlanned(before, before + [m], [spec])
  {
    assert (before + [m])[..|before|] == before;
  }

  lemma AddedAsPlannedSnoc(before: seq<Measurement>, mid: seq<Measurement>, after: seq<Measurement>,
                           specs: seq<MeasurementSpec>, spec: MeasurementSpec)
    requires AddedAsPlanned(before, mid, specs)
    requires AddedAsPlanned(mid, after, [spec])
    ensures AddedAsPlanned(before, after, specs + [spec])
  {
    assert after[..|mid|] == mid;
    assert after[..|before|] == mid[..|before|];
    forall k | 0 <= k < |specs| + 1 ensures Matches(after[|before| + k], (specs + [spec])[k]) {
      if k < |specs| {
        assert after[|before| + k] == mid[|before| + k];
      }
    }
  }
}
