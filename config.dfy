/** The shapes of the configuration objects the core receives: one output
    section (a writepump and its writer), one input section (a reader) and the
    measurements a reader collects. Every field the core reads is a `Prim`,
    except where the core only uses a field as a number, an object or a list,
    which keeps that field's type. */
module Config {
  import opened Js
  import opened Outcomes
  import Utils

  /** A numeric setting: absent, `null`, or a non-negative number. */
  datatype NumSetting = Absent | NullSetting | Given(value: nat)

  /** An `[[output]]` section. */
  datatype OutputConfig = OutputConfig(
    name: Prim,
    outputType: Prim,
    bufferMaxSize: NumSetting,
    writeMaxPoints: NumSetting,
    writeInterval: NumSetting,
    reportIntervalSeconds: NumSetting,
    dropOnFailWrite: Prim,
    // InfluxDB writer
    host: Prim,
    database: Prim,
    username: Prim,
    password: Prim,
    port: Prim,
    protocol: Prim,
    requestOptions: Prim,
    retentionPolicy: Prim,
    // MQTT and OPC-UA writers
    url: Prim,
    topicPrefix: Prim,
    cert: Prim,
    ca: Prim,
    key: Prim)

  /** An `[[input]]` section. */
  datatype InputConfig = InputConfig(
    name: Prim,
    inputType: Prim,
    url: Prim,
    topicPrefix: Prim,
    qos: Prim,
    useSourceTimeStamp: Prim,
    failoverTimeout: Prim,
    cert: Prim,
    ca: Prim,
    key: Prim,
    subscriptionOptions: Option<Utils.SubscriptionSettings>,
    clientSettings: Option<Utils.ClientSettings>)

  /** One link of a measurement: where a value is read from (`in_opcua`,
      `in_mqtt`), the addresses it is written to (`out_*`) and an optional
      `calc` expression (`calcSource`). A measurement carries the same fields itself. */
  datatype LinkConfig = LinkConfig(
    inOpcua: Prim,
    inMqtt: Prim,
    outInflux: Prim,
    outOpcua: Prim,
    outMqtt: Prim,
    calcSource: Prim)

  /** A `[[measurements]]` entry. `None` stands for a property that is not
      present (`hasOwnProperty` is false, or the value is undefined). */
  datatype MeasurementConfig = MeasurementConfig(
    name: Prim,
    dataType: Prim,
    collectionType: Option<Prim>,
    pollRate: Option<real>,
    monitorResolution: Option<Prim>,
    deadbandAbsolute: Option<real>,
    deadbandRelative: Option<real>,
    tags: Option<Tags>,
    nodeId: Prim,
    field: Prim,
    topic: Prim,
    own: LinkConfig,
    link: Option<seq<LinkConfig>>)

  /** `x || 0` for a numeric field that may be absent. */
  function OrZero(x: Option<real>): (r: real)
    ensures x.Some? ==> r == x.value
    ensures x.None? ==> r == 0.0
  {
    if x.Some? then x.value else 0.0
  }
}
