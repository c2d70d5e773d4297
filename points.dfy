/** The values that flow from the readers to the writepump: read nodes (whose
    last value the readers update in place), read points, measurements and
    buffer entries. */
module Points {
  import opened Js
  import opened Outcomes

  /** The node object that ParseNodes builds, without its two mutable fields.
      `calcSource` is the source text of the compiled `calc` function, or None
      for `null`. */
  datatype NodeConfig = NodeConfig(
    nodeId: Prim,
    topic: Prim,
    outInflux: Prim,
    outOpcua: Prim,
    outMqtt: Prim,
    dataType: Prim,
    calcSource: Option<Prim>,
    useCalc: Prim)

  /** A node: its fixed configuration, and the last value and status the
      reader recorded for it (`UpdatePointLastData`). */
  class ReadNode {
    const config: NodeConfig
    var lastValue: Prim
    var lastOpcstatus: Prim

    constructor (config: NodeConfig)
      ensures this.config == config
      ensures lastValue == Undefined && lastOpcstatus == Undefined
    {
      this.config := config;
      lastValue := Undefined;
      lastOpcstatus := Undefined;
    }
  }

  /** No node appears twice in `nodes`. */
  predicate DistinctReadNodes(nodes: seq<ReadNode>) {
    forall i, j :: 0 <= i < j < |nodes| ==> nodes[i] != nodes[j]
  }

  /** The fixed configuration of every node of `nodes`, in order. */
  function ConfigsOf(nodes: seq<ReadNode>): (r: seq<NodeConfig>)
    ensures |r| == |nodes|
    ensures forall k :: 0 <= k < |nodes| ==> r[k] == nodes[k].config
  {
    if nodes == [] then [] else [nodes[0].config] + ConfigsOf(nodes[1..])
  }

  /** A point read from a node. An MQTT point has no `opcstatus` (Undefined). */
  datatype Point = Point(node: ReadNode, value: Prim, opcstatus: Prim, timestamp: Prim)

  /** How a measurement is collected. */
  datatype Collection =
    | Polled(pollRate: real)
    | Monitored(monitorResolution: Prim)
    | Subscribed

  /** The measurement object a reader builds from a configured measurement. */
  datatype Measurement = Measurement(
    name: Prim,
    dataType: Prim,
    tags: Option<Tags>,
    nodes: seq<ReadNode>,
    collection: Collection,
    deadbandAbsolute: real,
    deadbandRelative: real)

  /** A buffer entry: `{_id, measurement_name, timed_value: {time, value},
      tags, output_config, i}`. */
  datatype Entry = Entry(
    id: Prim,
    measurementName: Prim,
    time: Prim,
    value: Prim,
    tags: Tags,
    outputConfig: Prim,
    i: Prim)

  /** The `_id` of every entry of a batch, in batch order. */
  function IdsOf(es: seq<Entry>): (ids: seq<Prim>)
    ensures |ids| == |es|
    ensures forall k :: 0 <= k < |es| ==> ids[k] == es[k].id
  {
    if es == [] then [] else [es[0].id] + IdsOf(es[1..])
  }
}
