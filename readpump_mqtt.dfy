/** readers/readpump_mqtt.js: how the MQTT reader checks its configuration,
    parses its measurements, turns a message into a point and coerces it to
    its node's data type, builds the registry of the topics it subscribes
    to, and handles subscription results and incoming messages. The MQTT
    client is left out: what the broker answers to each subscription is a
    parameter, a message arrives as a call of `OnMessage`, and the clock,
    the number parser and the number formatter are parameters. */
module ReadPumpMqtt {
  import opened Js
  import opened Outcomes
  import opened Points
  import opened Config
  import opened Readers
  import Utils

  // ---------------------------------------------------------------------
  // Messages and points

  /** `dataValueToPoint(node, message, customTimestamp)`: the compiled
      `calc` is applied when the node has one and `use_calc` is set; the
      point is stamped with the clock unless a truthy custom timestamp is
      given. An MQTT point has no status. */
  function DataValueToPoint(node: ReadNode, message: Prim, customTimestamp: Prim, now: real,
                            eval: (Prim, Prim) -> Prim): (p: Point)
    ensures p.node == node && p.opcstatus == Undefined
    ensures CalcApplies(node.config) ==> p.value == eval(node.config.calcSource.value, message)
    ensures !CalcApplies(node.config) ==> p.value == message
    ensures Truthy(customTimestamp) ==> p.timestamp == customTimestamp
    ensures !Truthy(customTimestamp) ==> p.timestamp == Num(now)
  {
    var value := if CalcApplies(node.config) then eval(node.config.calcSource.value, message) else message;
    Point(node, value, Undefined, if Truthy(customTimestamp) then customTimestamp else Num(now))
  }

  /** The value of a point coerced to a data type, or None when it cannot
      be: a number must convert with `Number` (None standing for NaN), a
      boolean must read "true" or "false" in any letter case, anything
      converts to a string, and no other data type is supported. */
  function Coerce(value: Prim, dataType: Prim, parse: string -> Option<real>, numText: real -> string): (r: Option<Prim>)
    ensures dataType == Str(Utils.TYPE_NUMBER) ==>
      (r.Some? <==> ToNumber(value, parse).Some?) && (r.Some? ==> r.value == Num(ToNumber(value, parse).value))
    ensures dataType == Str(Utils.TYPE_BOOLEAN) ==>
      && (r.Some? <==> ToLowerAscii(ToStr(value, numText)) in {"true", "false"})
      && (r.Some? ==> r.value == Bool(ToLowerAscii(ToStr(value, numText)) == "true"))
    ensures dataType == Str(Utils.TYPE_STRING) ==> r == Some(Str(ToStr(value, numText)))
    ensures !(dataType.Str? && dataType.s in Utils.SUPPORTED_DATA_TYPES) ==> r.None?
    ensures r.Some? ==> dataType == Str(TypeOf(r.value))
  {
    if dataType == Str(Utils.TYPE_NUMBER) then
      match ToNumber(value, parse)
      case Some(n) => Some(Num(n))
      case None => None
    else if dataType == Str(Utils.TYPE_BOOLEAN) then
      var lower := ToLowerAscii(ToStr(value, numText));
      if lower == "false" || lower == "true" then Some(Bool(lower == "true")) else None
    else if dataType == Str(Utils.TYPE_STRING) then
      Some(Str(ToStr(value, numText)))
    else None
  }

  /** A string without capital letters is its own lower case. */
  lemma LowerOfLower(s: string)
    requires forall k :: 0 <= k < |s| ==> !('A' <= s[k] <= 'Z')
    ensures ToLowerAscii(s) == s
  {
    var r := ToLowerAscii(s);
    assert forall k :: 0 <= k < |s| ==> r[k] == s[k];
  }

  lemma LowerTrueFalse()
    ensures ToLowerAscii("true") == "true" && ToLowerAscii("false") == "false"
  {
    LowerOfLower("true");
    LowerOfLower("false");
  }

  /** A coerced value coerces to itself: a second `PointMatchTypeAndSet`
      on a point that passed the first one changes nothing. */
  lemma CoerceIsIdempotent(value: Prim, dataType: Prim, parse: string -> Option<real>, numText: real -> string)
    requires Coerce(value, dataType, parse, numText).Some?
    ensures Coerce(Coerce(value, dataType, parse, numText).value, dataType, parse, numText)
      == Coerce(value, dataType, parse, numText)
  {
    LowerTrueFalse();
  }

  /** A word whose lower case is "true" or "false" coerces to that boolean. */
  lemma CoerceBooleanWord(w: string, b: bool, parse: string -> Option<real>, numText: real -> string)
    requires ToLowerAscii(w) == (if b then "true" else "false")
    ensures Coerce(Str(w), Str(Utils.TYPE_BOOLEAN), parse, numText) == Some(Bool(b))
  {
  }

  /** An upper-case "TRUE" is the boolean true. */
  lemma CoerceTrueExample(parse: string -> Option<real>, numText: real -> string)
    ensures Coerce(Str("TRUE"), Str("boolean"), parse, numText) == Some(Bool(true))
  {
    var upper := ToLowerAscii("TRUE");
    assert upper[0] == 't' && upper[1] == 'r' && upper[2] == 'u' && upper[3] == 'e';
    CoerceBooleanWord("TRUE", true, parse, numText);
  }
  /** A capitalised "False" is the boolean false. */
  lemma CoerceFalseExample(parse: string -> Option<real>, numText: real -> string)
    ensures Coerce(Str("False"), Str("boolean"), parse, numText) == Some(Bool(false))
  {
    var mixed := ToLowerAscii("False");
    assert mixed[0] == 'f' && mixed[1] == 'a' && mixed[2] == 'l' && mixed[3] == 's' && mixed[4] == 'e';
    CoerceBooleanWord("False", false, parse, numText);
  }
  /** A word other than "true" and "false" is not a boolean. */
  lemma CoerceYesExample(parse: string -> Option<real>, numText: real -> string)
    ensures Coerce(Str("yes"), Str("boolean"), parse, numText) == None
  {
    assert ToLowerAscii("yes")[0] == 'y';
  }

  /** Anything converts to a string, and a data type outside the supported
      ones is refused. */
  lemma CoerceOtherExamples(parse: string -> Option<real>, numText: real -> string, v: Prim)
    ensures Coerce(Bool(true), Str("string"), parse, numText) == Some(Str("true"))
    ensures Coerce(v, Str("integer"), parse, numText) == None
  {
    assert "integer" !in Utils.SUPPORTED_DATA_TYPES;
  }

  /** What `PointMatchTypeAndSet` returns, with the point as it leaves it. */
  datatype Coercion = Coercion(matched: bool, point: Point)

  /** `PointMatchTypeAndSet(point)`: on success the value is replaced by its
      coercion to the node's data type; on failure the point is left as it
      was. The point is one `dataValueToPoint` has just built, so the model
      returns it updated instead of updating it in place. */
  function PointMatchTypeAndSet(p: Point, parse: string -> Option<real>, numText: real -> string): (c: Coercion)
    ensures c.matched <==> Coerce(p.value, p.node.config.dataType, parse, numText).Some?
    ensures c.point.node == p.node && c.point.opcstatus == p.opcstatus && c.point.timestamp == p.timestamp
    ensures c.matched ==> Str(TypeOf(c.point.value)) == p.node.config.dataType
    ensures !c.matched ==> c.point == p
  {
    match Coerce(p.value, p.node.config.dataType, parse, numText)
    case Some(v) => Coercion(true, p.(value := v))
    case None => Coercion(false, p)
  }

  // ---------------------------------------------------------------------
  // Subscriptions

  /** What the client reports for the subscription of one topic: an error,
      or the QoS the broker granted (section 3.9.3 of MQTT 3.1.1: one return
      code per topic filter, 0x80 meaning failure). */
  datatype SubscribeResponse = SubscribeFailed | Granted(qos: int)

  /** The result `RegisterTopic` reports for one topic. */
  function RegisterTopic(resp: SubscribeResponse): (r: Outcome)
    ensures r == Pass <==> resp.Granted? && resp.qos != 0x80
    ensures r.Fail? ==> r.error == SubscriptionError
  {
    match resp
    case SubscribeFailed => Fail(SubscriptionError)
    case Granted(qos) => if qos == 128 then Fail(SubscriptionError) else Pass
  }

  /** `async.eachSeries` over the first `count` topics: the topics are
      registered in order, and the first failure ends the series. */
  function SubscribeAll(answer: nat -> SubscribeResponse, count: nat): Outcome {
    if count == 0 then Pass
    else
      match SubscribeAll(answer, count - 1)
      case Fail(e) => Fail(e)
      case Pass => RegisterTopic(answer(count - 1))
  }

  /** The series passes exactly when every topic is granted, and fails with
      the error of a topic that was not. */
  lemma {:induction false} SubscribeAllPasses(answer: nat -> SubscribeResponse, count: nat)
    ensures SubscribeAll(answer, count) == Pass <==> forall j :: 0 <= j < count ==> RegisterTopic(answer(j)) == Pass
    ensures SubscribeAll(answer, count).Fail? ==>
      exists j :: 0 <= j < count && RegisterTopic(answer(j)) == SubscribeAll(answer, count)
  {
    if count > 0 {
      SubscribeAllPasses(answer, count - 1);
    }
  }

  /** The node a topic feeds, and its measurement. */
  datatype MonitoredItem = MonitoredItem(node: ReadNode, measurement: Measurement)

  /** `String(topicPrefix).concat(node.topic)`. */
  function TopicOf(prefix: Prim, n: ReadNode, numText: real -> string): string {
    ToStr(prefix, numText) + ToStr(n.config.topic, numText)
  }

  /** The topics of the nodes of one measurement, in order. */
  function NodeEntries(prefix: Prim, m: Measurement, nodes: seq<ReadNode>, numText: real -> string)
    : (es: seq<(string, MonitoredItem)>)
    ensures |es| == |nodes|
    ensures forall k :: 0 <= k < |nodes| ==> es[k] == (TopicOf(prefix, nodes[k], numText), MonitoredItem(nodes[k], m))
  {
    if nodes == [] then []
    else
      var n := |nodes| - 1;
      NodeEntries(prefix, m, nodes[..n], numText) + [(TopicOf(prefix, nodes[n], numText), MonitoredItem(nodes[n], m))]
  }

  /** The topics of every node of every measurement, in the order of the
      two `forEach` loops of `StartMonitoring`. */
  function Entries(prefix: Prim, ms: seq<Measurement>, numText: real -> string): seq<(string, MonitoredItem)> {
    if ms == [] then []
    else
      var n := |ms| - 1;
      Entries(prefix, ms[..n], numText) + NodeEntries(prefix, ms[n], ms[n].nodes, numText)
  }

  /** Each entry names the topic of its node, a node of its measurement. */
  lemma EntriesAreSound(prefix: Prim, ms: seq<Measurement>, numText: real -> string)
    ensures forall e :: e in Entries(prefix, ms, numText) ==>
      && e.1.measurement in ms && e.1.node in e.1.measurement.nodes
      && e.0 == TopicOf(prefix, e.1.node, numText)
  {
    forall e | e in Entries(prefix, ms, numText)
      ensures && e.1.measurement in ms && e.1.node in e.1.measurement.nodes
              && e.0 == TopicOf(prefix, e.1.node, numText)
    {
      EntrySound(prefix, ms, numText, e);
    }
  }

  /** One entry names the topic of its node, a node of its measurement. */
  lemma {:induction false} EntrySound(prefix: Prim, ms: seq<Measurement>, numText: real -> string, e: (string, MonitoredItem))
    requires e in Entries(prefix, ms, numText)
    ensures && e.1.measurement in ms && e.1.node in e.1.measurement.nodes
            && e.0 == TopicOf(prefix, e.1.node, numText)
  {
    var n := |ms| - 1;
    var rest := Entries(prefix, ms[..n], numText);
    var last := NodeEntries(prefix, ms[n], ms[n].nodes, numText);
    assert Entries(prefix, ms, numText) == rest + last;
    if e in rest {
      EntrySound(prefix, ms[..n], numText, e);
      var i :| 0 <= i < n && ms[..n][i] == e.1.measurement;
      assert ms[i] == e.1.measurement;
    } else {
      var k :| 0 <= k < |last| && last[k] == e;
      assert e.1.measurement == ms[n];
    }
  }

  /** Every node of every measurement has its entry. */
  lemma EntriesAreComplete(prefix: Prim, ms: seq<Measurement>, numText: real -> string)
    ensures forall i, k :: 0 <= i < |ms| && 0 <= k < |ms[i].nodes| ==>
      (TopicOf(prefix, ms[i].nodes[k], numText), MonitoredItem(ms[i].nodes[k], ms[i])) in Entries(prefix, ms, numText)
  {
    forall i, k | 0 <= i < |ms| && 0 <= k < |ms[i].nodes|
      ensures (TopicOf(prefix, ms[i].nodes[k], numText), MonitoredItem(ms[i].nodes[k], ms[i])) in Entries(prefix, ms, numText)
    {
      EntryPresent(prefix, ms, numText, i, k);
    }
  }

  /** Node `k` of measurement `i` has its entry. */
  lemma {:induction false} EntryPresent(prefix: Prim, ms: seq<Measurement>, numText: real -> string, i: nat, k: nat)
    requires i < |ms| && k < |ms[i].nodes|
    ensures (TopicOf(prefix, ms[i].nodes[k], numText), MonitoredItem(ms[i].nodes[k], ms[i])) in Entries(prefix, ms, numText)
  {
    var n := |ms| - 1;
    var item := (TopicOf(prefix, ms[i].nodes[k], numText), MonitoredItem(ms[i].nodes[k], ms[i]));
    var rest := Entries(prefix, ms[..n], numText);
    var last := NodeEntries(prefix, ms[n], ms[n].nodes, numText);
    assert Entries(prefix, ms, numText) == rest + last;
    if i < n {
      assert ms[..n][i] == ms[i];
      EntryPresent(prefix, ms[..n], numText, i, k);
      InConcat(rest, last, item);
    } else {
      NodeEntryIn(prefix, ms[n], ms[n].nodes, numText, k);
      InConcat(rest, last, item);
    }
  }

  lemma NodeEntryIn(prefix: Prim, m: Measurement, nodes: seq<ReadNode>, numText: real -> string, k: nat)
    requires k < |nodes|
    ensures (TopicOf(prefix, nodes[k], numText), MonitoredItem(nodes[k], m)) in NodeEntries(prefix, m, nodes, numText)
  {
    assert NodeEntries(prefix, m, nodes, numText)[k] == (TopicOf(prefix, nodes[k], numText), MonitoredItem(nodes[k], m));
  }

  lemma InConcat<T>(a: seq<T>, b: seq<T>, x: T)
    requires x in a || x in b
    ensures x in a + b
  {
  }

  /** `monitoredItems[ntopic] = {...}` for the entries in order: when two
      nodes share a topic, the later one wins. */
  function RegistryOf(es: seq<(string, MonitoredItem)>): (r: map<string, MonitoredItem>) {
    if es == [] then map[]
    else
      var n := |es| - 1;
      RegistryOf(es[..n])[es[n].0 := es[n].1]
  }

  /** The registry holds a topic exactly when some entry names it, and maps
      it to one of that topic's entries. */
  lemma {:induction false} RegistryOfEntries(es: seq<(string, MonitoredItem)>)
    ensures forall e :: e in es ==> e.0 in RegistryOf(es)
    ensures forall t :: t in RegistryOf(es) ==> (t, RegistryOf(es)[t]) in es
  {
    if es != [] {
      var n := |es| - 1;
      RegistryOfEntries(es[..n]);
      assert forall e :: e in es ==> e in es[..n] || e == es[n];
      assert forall e :: e in es[..n] ==> e in es;
    }
  }

  /** The registry `StartMonitoring` builds has the topic of every node of
      every measurement, and a message on one of its topics reaches a node
      of that topic and the node's own measurement. */
  lemma RegistryIsExact(prefix: Prim, ms: seq<Measurement>, numText: real -> string)
    ensures forall i, k :: 0 <= i < |ms| && 0 <= k < |ms[i].nodes| ==>
      TopicOf(prefix, ms[i].nodes[k], numText) in RegistryOf(Entries(prefix, ms, numText))
    ensures var reg := RegistryOf(Entries(prefix, ms, numText));
      forall t :: t in reg ==>
        && reg[t].measurement in ms && reg[t].node in reg[t].measurement.nodes
        && t == TopicOf(prefix, reg[t].node, numText)
  {
    var es := Entries(prefix, ms, numText);
    EntriesAreSound(prefix, ms, numText);
    EntriesAreComplete(prefix, ms, numText);
    RegistryOfEntries(es);
  }

  /** The topic of every entry, in order: what `StartMonitoring` subscribes to. */
  function TopicsOf(es: seq<(string, MonitoredItem)>): (ts: seq<string>)
    ensures |ts| == |es|
    ensures forall j :: 0 <= j < |es| ==> ts[j] == es[j].0
  {
    seq(|es|, j requires 0 <= j < |es| => es[j].0)
  }

  lemma RegistrySnoc(es: seq<(string, MonitoredItem)>, e: (string, MonitoredItem))
    ensures RegistryOf(es + [e]) == RegistryOf(es)[e.0 := e.1]
  {
    assert (es + [e])[..|es|] == es;
  }

  lemma NodeEntriesSnoc(prefix: Prim, m: Measurement, k: nat, numText: real -> string)
    requires k < |m.nodes|
    ensures NodeEntries(prefix, m, m.nodes[..k + 1], numText)
      == NodeEntries(prefix, m, m.nodes[..k], numText) + [(TopicOf(prefix, m.nodes[k], numText), MonitoredItem(m.nodes[k], m))]
  {
    assert m.nodes[..k + 1][..k] == m.nodes[..k];
  }

  /** One step of the inner `forEach`: the next node's entry extends the
      entries, the registry and the topic list together. */
  lemma NodeTopicStep(prefix: Prim, m: Measurement, k: nat, numText: real -> string,
                      es0: seq<(string, MonitoredItem)>, es: seq<(string, MonitoredItem)>)
    requires k < |m.nodes| && es == es0 + NodeEntries(prefix, m, m.nodes[..k], numText)
    ensures var e := (TopicOf(prefix, m.nodes[k], numText), MonitoredItem(m.nodes[k], m));
      && es + [e] == es0 + NodeEntries(prefix, m, m.nodes[..k + 1], numText)
      && RegistryOf(es + [e]) == RegistryOf(es)[e.0 := e.1]
      && TopicsOf(es + [e]) == TopicsOf(es) + [e.0]
  {
    var e := (TopicOf(prefix, m.nodes[k], numText), MonitoredItem(m.nodes[k], m));
    NodeEntriesSnoc(prefix, m, k, numText);
    RegistrySnoc(es, e);
    assert TopicsOf(es + [e]) == TopicsOf(es) + [e.0];
  }

  lemma EntriesSnoc(prefix: Prim, ms: seq<Measurement>, i: nat, numText: real -> string)
    requires i < |ms|
    ensures Entries(prefix, ms[..i + 1], numText) == Entries(prefix, ms[..i], numText) + NodeEntries(prefix, ms[i], ms[i].nodes, numText)
  {
    assert ms[..i + 1][..i] == ms[..i];
  }

  // ---------------------------------------------------------------------
  // Configuration

  /** The constructor's checks, in order: the input section, the
      measurements and the write pump must be present, the input type must
      be exactly "mqtt", and a topic prefix must be given. Every failure is
      a ConfigurationError. */
  function CheckReaderConfig(input: Option<InputConfig>, measurementsPresent: bool, writepumpPresent: bool): (r: Outcome)
    ensures r == Pass <==>
      && input.Some? && measurementsPresent && writepumpPresent
      && input.value.inputType == Str(Utils.INPUT_MQTT)
      && !IsNullish(input.value.topicPrefix)
    ensures r.Fail? ==> r.error == ConfigurationError
  {
    if input.None? then Fail(ConfigurationError)
    else if !measurementsPresent then Fail(ConfigurationError)
    else if !writepumpPresent then Fail(ConfigurationError)
    else if input.value.inputType != Str(Utils.INPUT_MQTT) then Fail(ConfigurationError)
    else if IsNullish(input.value.topicPrefix) then Fail(ConfigurationError)
    else Pass
  }

  /** What the constructor keeps of the input section: the section itself
      (the prefix, the QoS and the client options) and `waitSeconds`. */
  datatype ReaderSettings = ReaderSettings(config: InputConfig, waitSeconds: Prim)

  /** The constructor, up to the fields it initialises; `waitSeconds` is
      `failoverTimeout || 5`. */
  function NewReaderSettings(input: Option<InputConfig>, measurementsPresent: bool, writepumpPresent: bool): (r: Result<ReaderSettings>)
    ensures r.Ok? <==> CheckReaderConfig(input, measurementsPresent, writepumpPresent) == Pass
    ensures r.Err? ==> r.error == ConfigurationError
    ensures r.Ok? ==> r.value.config == input.value && r.value.waitSeconds == Or(input.value.failoverTimeout, Num(5.0))
    ensures r.Ok? ==> Truthy(r.value.waitSeconds)
  {
    match CheckReaderConfig(input, measurementsPresent, writepumpPresent)
    case Fail(e) => Err(e)
    case Pass => Ok(ReaderSettings(input.value, Or(input.value.failoverTimeout, Num(5.0))))
  }

  /** `ValidateMeasurement`: the measurement must be present, its name a
      non-blank string and its dataType set. Unlike the OPC-UA reader's,
      it does not look at a collection type. */
  function ValidateMeasurement(mc: Option<MeasurementConfig>): (r: Outcome)
    ensures r == Pass <==>
      && mc.Some?
      && mc.value.name.Str? && !IsBlank(mc.value.name.s)
      && !IsNullish(mc.value.dataType)
    ensures mc.None? ==> r == Fail(ConfigurationError)
    ensures r.Fail? && r.error != ConfigurationError ==> r.error == TypeError && mc.Some? && !mc.value.name.Str?
  {
    if mc.None? then Fail(ConfigurationError)
    else
      match Utils.ValidateConfigurationStringProperty(mc.value.name, true)
      case Fail(e) => Fail(e)
      case Pass => Utils.ValidateConfigurationProperty(mc.value.dataType)
  }

  /** The links `ParseNodes` turns into nodes: the measurement itself when
      its `topic` is set and its `field` is truthy, then its `link` array.
      The measurement's own node reads `in_mqtt`, although the test looks
      at `topic`. */
  function MqttLinks(mc: MeasurementConfig): seq<LinkConfig> {
    (if !IsNullish(mc.topic) && Truthy(mc.field) then [mc.own] else [])
    + (if mc.link.Some? && |mc.link.value| > 0 then mc.link.value else [])
  }

  /** One measurement of `InitializeMeasurements`: validated, then its
      nodes parsed, then stored with its deadbands defaulting to 0. */
  function AddSpec(mc: Option<MeasurementConfig>): (r: Result<MeasurementSpec>)
    ensures ValidateMeasurement(mc).Fail? ==> r == Err(ValidateMeasurement(mc).error)
    ensures ValidateMeasurement(mc) == Pass ==>
      (r.Ok? <==> ParseLinks(MqttLinks(mc.value), mc.value.dataType, MqttSide).Ok?)
    ensures r.Ok? ==>
      && r.value.name == mc.value.name && r.value.dataType == mc.value.dataType && r.value.tags == mc.value.tags
      && r.value.nodes == ParseLinks(MqttLinks(mc.value), mc.value.dataType, MqttSide).value
      && r.value.collection == Subscribed
      && r.value.deadbandAbsolute == OrZero(mc.value.deadbandAbsolute)
      && r.value.deadbandRelative == OrZero(mc.value.deadbandRelative)
  {
    match ValidateMeasurement(mc)
    case Fail(e) => Err(e)
    case Pass =>
      var m := mc.value;
      match ParseLinks(MqttLinks(m), m.dataType, MqttSide)
      case Err(e) => Err(e)
      case Ok(nodes) =>
        Ok(MeasurementSpec(m.name, m.dataType, m.tags, nodes, Subscribed, OrZero(m.deadbandAbsolute), OrZero(m.deadbandRelative)))
  }

  /** The tests' cases for names and data types: a null, missing or blank
      name and a null dataType are each refused with a ConfigurationError. */
  lemma AddSpecNameExamples(mc: MeasurementConfig)
    requires mc.name == Str("m") && mc.dataType == Str("number")
    ensures AddSpec(Some(mc.(name := Null))) == Err(ConfigurationError)
    ensures AddSpec(Some(mc.(name := Undefined))) == Err(ConfigurationError)
    ensures AddSpec(Some(mc.(name := Str(" ")))) == Err(ConfigurationError)
    ensures AddSpec(Some(mc.(dataType := Null))) == Err(ConfigurationError)
  {
    assert !IsBlank("m") by { assert !IsJsWhitespace("m"[0]); }
    assert IsBlank(" ") by { assert IsJsWhitespace(" "[0]); }
  }

  /** The tests' cases for links: a link whose `in_mqtt` is missing, null or
      blank is refused with a ConfigurationError. */
  lemma AddSpecLinkExamples(mc: MeasurementConfig, l: LinkConfig, bad: Prim)
    requires mc.name == Str("m") && mc.dataType == Str("number")
    requires IsNullish(mc.topic)
    requires bad == Undefined || bad == Null || bad == Str(" ")
    ensures AddSpec(Some(mc.(link := Some([l.(inMqtt := bad)])))) == Err(ConfigurationError)
  {
    var ls := [l.(inMqtt := bad)];
    var mc' := mc.(link := Some(ls));
    assert !IsBlank("m") by { assert !IsJsWhitespace("m"[0]); }
    assert ValidateMeasurement(Some(mc')) == Pass;
    assert MqttLinks(mc') == ls by { assert [] + ls == ls; }
    BadLinkRefused(l, bad, mc.dataType);
  }

  /** A single link whose `in_mqtt` is missing, null or blank fails the
      parse with a ConfigurationError. */
  lemma BadLinkRefused(l: LinkConfig, bad: Prim, dataType: Prim)
    requires bad == Undefined || bad == Null || bad == Str(" ")
    ensures ParseLinks([l.(inMqtt := bad)], dataType, MqttSide) == Err(ConfigurationError)
  {
    var ls := [l.(inMqtt := bad)];
    assert ls[..0] == [];
    if bad == Str(" ") {
      assert IsBlank(" ") by { assert IsJsWhitespace(" "[0]); }
    }
  }

  /** One pass of the loop of `InitializeMeasurements`: the measurement as
      it is stored when it is accepted, or the error it throws. */
  method NewMeasurement(mc: Option<MeasurementConfig>) returns (r: Result<Measurement>)
    ensures r.Ok? <==> AddSpec(mc).Ok?
    ensures r.Err? ==> r.error == AddSpec(mc).error
    ensures r.Ok? ==> Matches(r.value, AddSpec(mc).value) && DistinctReadNodes(r.value.nodes)
  {
    var v := ValidateMeasurement(mc);
    if v.Fail? {
      return Err(v.error);
    }
    var m := mc.value;
    var nodes := ParseNodes(MqttLinks(m), m.dataType, MqttSide);
    if nodes.Err? {
      return Err(nodes.error);
    }
    r := Ok(Measurement(m.name, m.dataType, m.tags, nodes.value, Subscribed,
      OrZero(m.deadbandAbsolute), OrZero(m.deadbandRelative)));
  }

  /** What adding each measurement on its own gives, in order. */
  function Attempts(mcs: seq<Option<MeasurementConfig>>): (rs: seq<Result<MeasurementSpec>>)
    ensures |rs| == |mcs|
    ensures forall k :: 0 <= k < |mcs| ==> rs[k] == AddSpec(mcs[k])
  {
    seq(|mcs|, k requires 0 <= k < |mcs| => AddSpec(mcs[k]))
  }

  /** The measurements `InitializeMeasurements` adds, and how it ends. */
  function InitPlan(mcs: seq<Option<MeasurementConfig>>): Plan {
    PlanOf(Attempts(mcs))
  }

  /** The plan passes exactly when every measurement is accepted, and then it
      adds every one of them, in order. */
  lemma InitPlanPasses(mcs: seq<Option<MeasurementConfig>>)
    ensures InitPlan(mcs).outcome == Pass <==> forall k :: 0 <= k < |mcs| ==> AddSpec(mcs[k]).Ok?
    ensures InitPlan(mcs).outcome == Pass ==>
      |InitPlan(mcs).specs| == |mcs| && forall k :: 0 <= k < |mcs| ==> InitPlan(mcs).specs[k] == AddSpec(mcs[k]).value
  {
    PlanOfPasses(Attempts(mcs));
  }

  // ---------------------------------------------------------------------
  // The reader

  class ReaderMqtt {
    const settings: ReaderSettings
    const measurements: seq<Option<MeasurementConfig>>
    var monitoredMeasurements: seq<Measurement>
    var monitoredItem: map<string, MonitoredItem>
    var measurementsInitialised: bool

    /** The constructor: no measurement and no registered topic yet. */
    constructor (settings: ReaderSettings, measurements: seq<Option<MeasurementConfig>>)
      ensures this.settings == settings && this.measurements == measurements
      ensures monitoredMeasurements == [] && monitoredItem == map[]
      ensures !measurementsInitialised
    {
      this.settings := settings;
      this.measurements := measurements;
      monitoredMeasurements := [];
      monitoredItem := map[];
      measurementsInitialised := false;
    }

    /** `UpdatePointLastData`: only the value is recorded (an MQTT point has
        no status). */
    method UpdatePointLastData(p: Point)
      modifies p.node
      ensures p.node.lastValue == p.value
      ensures p.node.lastOpcstatus == old(p.node.lastOpcstatus)
    {
      p.node.lastValue := p.value;
    }

    /** `InitializeMeasurements`: a no-op once called. The flag is set before
        the measurements are added, so a call that throws part-way leaves
        the measurements before the failing one added and every later call
        does nothing. */
    method InitializeMeasurements() returns (r: Outcome)
      modifies this
      ensures measurementsInitialised
      ensures old(measurementsInitialised) ==> r == Pass && monitoredMeasurements == old(monitoredMeasurements)
      ensures !old(measurementsInitialised) ==>
        && r == InitPlan(measurements).outcome
        && AddedAsPlanned(old(monitoredMeasurements), monitoredMeasurements, InitPlan(measurements).specs)
      ensures monitoredItem == old(monitoredItem)
    {
      if measurementsInitialised {
        return Pass;
      }
      measurementsInitialised := true;
      r := AddAll();
    }

    /** The `forEach` of `InitializeMeasurements`. */
    method AddAll() returns (r: Outcome)
      modifies this
      ensures r == InitPlan(measurements).outcome
      ensures AddedAsPlanned(old(monitoredMeasurements), monitoredMeasurements, InitPlan(measurements).specs)
      ensures monitoredItem == old(monitoredItem) && measurementsInitialised == old(measurementsInitialised)
    {
      ghost var rs := Attempts(measurements);
      var j := 0;
      assert rs[..0] == [];
      while j < |measurements|
        invariant 0 <= j <= |measurements|
        invariant PlanOf(rs[..j]).outcome == Pass
        invariant AddedAsPlanned(old(monitoredMeasurements), monitoredMeasurements, PlanOf(rs[..j]).specs)
        invariant monitoredItem == old(monitoredItem) && measurementsInitialised == old(measurementsInitialised)
      {
        assert rs[j] == AddSpec(measurements[j]);
        PlanNext(rs, j);
        var added := NewMeasurement(measurements[j]);
        if added.Err? {
          PlanStopsAtFailure(rs, j + 1);
          return Fail(added.error);
        }
        var m := added.value;
        ghost var before := monitoredMeasurements;
        AddedOne(before, m, rs[j].value);
        monitoredMeasurements := monitoredMeasurements + [m];
        AddedAsPlannedSnoc(old(monitoredMeasurements), before, monitoredMeasurements, PlanOf(rs[..j]).specs, rs[j].value);
        j := j + 1;
      }
      assert rs[..j] == rs;
      r := Pass;
    }

    /** `StartMonitoring`: the registry of every node's topic is built, then
        the topics are registered in order (`answer(j)` is what the client
        reports for the j-th). The reader keeps the registry when every
        topic is granted, and an empty one on the first failure. */
    method StartMonitoring(answer: nat -> SubscribeResponse, numText: real -> string) returns (r: Outcome)
      modifies this
      ensures var es := Entries(settings.config.topicPrefix, monitoredMeasurements, numText);
        && r == SubscribeAll(answer, |es|)
        && monitoredItem == (if r == Pass then RegistryOf(es) else map[])
      ensures monitoredMeasurements == old(monitoredMeasurements) && measurementsInitialised == old(measurementsInitialised)
    {
      var items, topics := BuildRegistry(numText);
      r := SubscribeSeries(answer, |topics|);
      if r.Fail? {
        monitoredItem := map[];
      } else {
        monitoredItem := items;
      }
    }

    /** The two `forEach` loops of `StartMonitoring`: the registry and the
        list of topics to subscribe to. */
    method BuildRegistry(numText: real -> string) returns (items: map<string, MonitoredItem>, topics: seq<string>)
      ensures items == RegistryOf(Entries(settings.config.topicPrefix, monitoredMeasurements, numText))
      ensures topics == TopicsOf(Entries(settings.config.topicPrefix, monitoredMeasurements, numText))
    {
      var prefix := settings.config.topicPrefix;
      var ms := monitoredMeasurements;
      items, topics := map[], [];
      var i := 0;
      assert ms[..0] == [];
      while i < |ms|
        invariant 0 <= i <= |ms|
        invariant items == RegistryOf(Entries(prefix, ms[..i], numText))
        invariant topics == TopicsOf(Entries(prefix, ms[..i], numText))
      {
        items, topics := AddNodeTopics(prefix, ms[i], numText, items, topics, Entries(prefix, ms[..i], numText));
        EntriesSnoc(prefix, ms, i, numText);
        i := i + 1;
      }
      assert ms[..i] == ms;
    }

    /** The "message" handler. The registry is a plain object, so its `in`
        test also holds for the names `Object.prototype` provides; for such
        a topic the item found has no `node`, and `dataValueToPoint` throws
        a TypeError reading `node.use_calc`. A message on any other topic
        that is not registered is ignored. Otherwise the point is handed to
        the write pump (as a batch of one for the topic's measurement)
        exactly when it coerces to its node's type, and the node records
        the point's value in every case: the coerced value, or the raw one
        when coercion failed. */
    method OnMessage(topic: string, message: Prim, now: real, eval: (Prim, Prim) -> Prim,
                     parse: string -> Option<real>, numText: real -> string)
      returns (r: Result<Option<Batch>>)
      modifies if topic in monitoredItem then {monitoredItem[topic].node} else {}
      ensures topic !in monitoredItem && !IsObjectPrototypeName(topic) ==> r == Ok(None)
      ensures topic !in monitoredItem && IsObjectPrototypeName(topic) ==> r == Err(TypeError)
      ensures topic in monitoredItem ==>
        var item := monitoredItem[topic];
        var c := PointMatchTypeAndSet(DataValueToPoint(item.node, message, Null, now, eval), parse, numText);
        && r == Ok(if c.matched then Some(Batch(item.measurement, [c.point])) else None)
        && item.node.lastValue == c.point.value
        && item.node.lastOpcstatus == old(item.node.lastOpcstatus)
    {
      if topic !in monitoredItem {
        if IsObjectPrototypeName(topic) {
          return Err(TypeError);
        }
        return Ok(None);
      }
      var item := monitoredItem[topic];
      var point := DataValueToPoint(item.node, message, Null, now, eval);
      var c := PointMatchTypeAndSet(point, parse, numText);
      r := Ok(if c.matched then Some(Batch(item.measurement, [c.point])) else None);
      UpdatePointLastData(c.point);
    }
  }

  /** The inner `forEach` of `StartMonitoring`: the topic of every node of
      `m` joins the registry and the list, in order. */
  method AddNodeTopics(prefix: Prim, m: Measurement, numText: real -> string,
                       items0: map<string, MonitoredItem>, topics0: seq<string>, ghost es0: seq<(string, MonitoredItem)>)
    returns (items: map<string, MonitoredItem>, topics: seq<string>)
    requires items0 == RegistryOf(es0) && topics0 == TopicsOf(es0)
    ensures items == RegistryOf(es0 + NodeEntries(prefix, m, m.nodes, numText))
    ensures topics == TopicsOf(es0 + NodeEntries(prefix, m, m.nodes, numText))
  {
    items, topics := items0, topics0;
    ghost var es := es0;
    var k := 0;
    assert m.nodes[..0] == [];
    while k < |m.nodes|
      invariant 0 <= k <= |m.nodes|
      invariant es == es0 + NodeEntries(prefix, m, m.nodes[..k], numText)
      invariant items == RegistryOf(es) && topics == TopicsOf(es)
    {
      var node := m.nodes[k];
      var e := (TopicOf(prefix, node, numText), MonitoredItem(node, m));
      NodeTopicStep(prefix, m, k, numText, es0, es);
      items := items[e.0 := e.1];
      topics := topics + [e.0];
      es := es + [e];
      k := k + 1;
    }
    assert m.nodes[..k] == m.nodes;
  }

  /** `async.eachSeries(topics, RegisterTopic, ...)` over `count` topics:
      the first failure stops the series. */
  method SubscribeSeries(answer: nat -> SubscribeResponse, count: nat) returns (r: Outcome)
    ensures r == SubscribeAll(answer, count)
  {
    var j := 0;
    while j < count
      invariant 0 <= j <= count
      invariant SubscribeAll(answer, j) == Pass
    {
      var o := RegisterTopic(answer(j));
      if o.Fail? {
        SubscribeStopsAtFailure(answer, j + 1, count);
        return o;
      }
      j := j + 1;
    }
    r := Pass;
  }

  /** A series that fails on a prefix of the topics fails the same way on
      all of them. */
  lemma {:induction false} SubscribeStopsAtFailure(answer: nat -> SubscribeResponse, j: nat, count: nat)
    requires 0 < j <= count && SubscribeAll(answer, j).Fail?
    ensures SubscribeAll(answer, count) == SubscribeAll(answer, j)
    decreases count - j
  {
    if j < count {
      SubscribeStopsAtFailure(answer, j, count - 1);
    }
  }

  /** A message that is handed on is of its node's data type. */
  lemma BufferedMessageIsTyped(node: ReadNode, message: Prim, now: real, eval: (Prim, Prim) -> Prim,
                               parse: string -> Option<real>, numText: real -> string)
    requires PointMatchTypeAndSet(DataValueToPoint(node, message, Null, now, eval), parse, numText).matched
    ensures var p := PointMatchTypeAndSet(DataValueToPoint(node, message, Null, now, eval), parse, numText).point;
      && node.config.dataType.Str? && node.config.dataType.s in Utils.SUPPORTED_DATA_TYPES
      && Str(TypeOf(p.value)) == node.config.dataType
      && p.timestamp == Num(now) && p.node == node
  {
  }
}
