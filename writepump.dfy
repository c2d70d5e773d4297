/** writepump.js: the durable write buffer of one output and its write
    cycle. The nedb store is a map from an insertion key to the stored entry;
    nedb's generated `_id` of the entry stored under key `k` is
    `Str(StoreId(k))`. The writer is a parameter: a function from a batch to
    what its callback receives. Timers, the file behind the store and
    logging are not part of this model. */
module WritePump {
  import opened Js
  import opened Outcomes
  import opened Points
  import opened Config
  import opened Validators
  import opened BaseWriter
  import opened Reporting
  import Utils
  import InfluxDbWriter
  import MqttWriter
  import OpcuaWriter

  const DEFAULT_REPORT_INTERVAL_MS: nat := 60 * 1000
  const DEFAULT_WRITE_LIMIT: nat := 1000
  const DEFAULT_WRITE_INTERVAL: nat := 5000

  function Min(a: nat, b: nat): nat {
    if a <= b then a else b
  }

  // ---------------------------------------------------------------------
  // The constructor: get_db_path, the defaults, ConfigureWriter

  predicate EndsWithDb(s: string) {
    |s| >= 3 && s[|s| - 3..] == ".db"
  }

  /** The file name of the store: the output's name, with ".db" appended
      unless it already ends with it. */
  function DbFileName(name: string): (r: string)
    ensures EndsWithDb(r)
    ensures |name| <= |r| && r[..|name|] == name
    ensures EndsWithDb(name) ==> r == name
  {
    if EndsWithDb(name) then name
    else
      assert (name + ".db")[|name + ".db"| - 3..] == ".db";
      name + ".db"
  }

  /** Naming the store is idempotent: a name that `DbFileName` produced is
      kept as it is. */
  lemma DbFileNameIdempotent(name: string)
    ensures DbFileName(DbFileName(name)) == DbFileName(name)
    ensures DbFileName(name + ".db") == name + ".db"
  {
    assert (name + ".db")[|name + ".db"| - 3..] == ".db";
  }

  /** `path.resolve(dir, dbname)`, kept as its two parts. */
  datatype DbPath = DbPath(dir: string, file: string)

  /** `process.env.BUFFER_LOCATION || __dirname`; `None` is an unset
      variable. */
  function BufferDir(bufferLocation: Option<string>, moduleDir: string): (dir: string)
    ensures bufferLocation.Some? && bufferLocation.value != "" ==> dir == bufferLocation.value
    ensures bufferLocation.None? || bufferLocation.value == "" ==> dir == moduleDir
  {
    if bufferLocation.Some? && bufferLocation.value != "" then bufferLocation.value else moduleDir
  }

  /** `get_db_path(output_config)`: a null or undefined name throws, and a
      name that is not a string has no `endsWith`. */
  function GetDbPath(name: Prim, bufferLocation: Option<string>, moduleDir: string): (r: Result<DbPath>)
    ensures r.Ok? <==> name.Str?
    ensures IsNullish(name) ==> r == Err(ConfigurationError)
    ensures !IsNullish(name) && !name.Str? ==> r == Err(TypeError)
    ensures r.Ok? ==> r.value.dir == BufferDir(bufferLocation, moduleDir) && r.value.file == DbFileName(name.s)
  {
    if IsNullish(name) then Err(ConfigurationError)
    else if !name.Str? then Err(TypeError)
    else Ok(DbPath(BufferDir(bufferLocation, moduleDir), DbFileName(name.s)))
  }

  lemma DbPathExamples()
    ensures GetDbPath(Str("plant"), None, "/srv") == Ok(DbPath("/srv", "plant.db"))
    ensures GetDbPath(Str("plant.db"), Some("/data"), "/srv") == Ok(DbPath("/data", "plant.db"))
    ensures GetDbPath(Null, None, "/srv") == Err(ConfigurationError)
  {
    assert "plant" + ".db" == "plant.db";
    assert EndsWithDb("plant.db");
    assert !EndsWithDb("plant");
  }

  /** `setting || default` for a numeric setting. */
  function SettingOr(s: NumSetting, default: nat): (r: nat)
    ensures s.Given? && s.value != 0 ==> r == s.value
    ensures !(s.Given? && s.value != 0) ==> r == default
    ensures default > 0 ==> r > 0
  {
    if s.Given? && s.value != 0 then s.value else default
  }

  /** `reportIntervalSeconds * 1000 || 60 * 1000`: an absent setting gives
      NaN and a null one 0, and both are falsy. */
  function ReportIntervalMs(s: NumSetting): (r: nat)
    ensures s.Given? && s.value != 0 ==> r == s.value * 1000
    ensures !(s.Given? && s.value != 0) ==> r == DEFAULT_REPORT_INTERVAL_MS
    ensures r > 0
  {
    if s.Given? && s.value != 0 then s.value * 1000 else DEFAULT_REPORT_INTERVAL_MS
  }

  /** The writer `ConfigureWriter` builds. */
  datatype Writer =
    | Influx(influx: InfluxDbWriter.InfluxSettings)
    | Mqtt(mqtt: MqttWriter.MqttSettings)
    | Opcua

  /** `ConfigureWriter`: the writer for `config.type`, whose constructor
      checks the rest of the configuration; any other type throws. */
  function ConfigureWriter(config: OutputConfig): (r: Result<Writer>)
    ensures config.outputType == Str(Utils.OUTPUT_INFLUXDB) ==>
      && (r.Ok? <==> InfluxDbWriter.NewInfluxDbWriter(Some(config)).Ok?)
      && (r.Ok? ==> r.value == Influx(InfluxDbWriter.NewInfluxDbWriter(Some(config)).value))
    ensures config.outputType == Str(Utils.OUTPUT_MQTT) ==>
      && (r.Ok? <==> MqttWriter.NewMqttWriter(Some(config)).Ok?)
      && (r.Ok? ==> r.value == Mqtt(MqttWriter.NewMqttWriter(Some(config)).value))
    ensures config.outputType == Str(Utils.OUTPUT_OPCUA) ==>
      && (r.Ok? <==> OpcuaWriter.NewOpcuaWriter(Some(config)) == Pass)
      && (r.Ok? ==> r.value == Opcua)
    ensures config.outputType !in {Str(Utils.OUTPUT_INFLUXDB), Str(Utils.OUTPUT_MQTT), Str(Utils.OUTPUT_OPCUA)} ==>
      r == Err(ConfigurationError)
  {
    if config.outputType == Str(Utils.OUTPUT_INFLUXDB) then
      match InfluxDbWriter.NewInfluxDbWriter(Some(config))
      case Ok(w) => Ok(Influx(w))
      case Err(e) => Err(e)
    else if config.outputType == Str(Utils.OUTPUT_MQTT) then
      match MqttWriter.NewMqttWriter(Some(config))
      case Ok(w) => Ok(Mqtt(w))
      case Err(e) => Err(e)
    else if config.outputType == Str(Utils.OUTPUT_OPCUA) then
      match OpcuaWriter.NewOpcuaWriter(Some(config))
      case Pass => Ok(Opcua)
      case Fail(e) => Err(e)
    else Err(ConfigurationError)
  }

  /** What the WritePump constructor settles: `storage` is `None` for an
      in-memory store. */
  datatype PumpSettings = PumpSettings(
    name: Prim,
    configType: Prim,
    bufferMaxSize: nat,
    storage: Option<DbPath>,
    reportIntervalMs: nat,
    writeLimit: nat,
    writeInterval: nat,
    dropOnFailWrite: bool,
    writer: Writer)

  /** The checks and defaults of `new WritePump(output_config, in_memory)`.
      `bufferLocation` is the BUFFER_LOCATION environment variable and
      `moduleDir` the directory of writepump.js. */
  function NewPumpSettings(config: Option<OutputConfig>, inMemory: bool, bufferLocation: Option<string>, moduleDir: string)
    : (r: Result<PumpSettings>)
    ensures config.None? ==> r == Err(ConfigurationError)
    ensures config.Some? && !config.value.bufferMaxSize.Given? ==> r == Err(ConfigurationError)
    ensures config.Some? && config.value.bufferMaxSize.Given? && config.value.name == Undefined ==>
      r == Err(ConfigurationError)
    ensures r.Ok? <==>
      && config.Some?
      && config.value.bufferMaxSize.Given?
      && config.value.name != Undefined
      && (inMemory || config.value.name.Str?)
      && ConfigureWriter(config.value).Ok?
    ensures r.Ok? ==>
      && r.value.name == config.value.name
      && r.value.configType == config.value.outputType
      && r.value.bufferMaxSize == config.value.bufferMaxSize.value
      && (r.value.storage.None? <==> inMemory)
      && (r.value.storage.Some? ==> r.value.storage == Some(GetDbPath(config.value.name, bufferLocation, moduleDir).value))
      && r.value.reportIntervalMs == ReportIntervalMs(config.value.reportIntervalSeconds)
      && r.value.writeLimit == SettingOr(config.value.writeMaxPoints, DEFAULT_WRITE_LIMIT)
      && r.value.writeInterval == SettingOr(config.value.writeInterval, DEFAULT_WRITE_INTERVAL)
      && r.value.dropOnFailWrite == Truthy(config.value.dropOnFailWrite)
      && r.value.writer == ConfigureWriter(config.value).value
    ensures r.Ok? ==> r.value.writeLimit > 0 && r.value.writeInterval > 0 && r.value.reportIntervalMs > 0
  {
    if config.None? then Err(ConfigurationError)
    else
      var c := config.value;
      if !c.bufferMaxSize.Given? then Err(ConfigurationError)
      else if c.name == Undefined then Err(ConfigurationError)
      else
        var storage: Result<Option<DbPath>> := if inMemory then Ok(None) else
          (match GetDbPath(c.name, bufferLocation, moduleDir)
           case Ok(p) => Ok(Some(p))
           case Err(e) => Err(e));
        if storage.Err? then Err(storage.error)
        else
          match ConfigureWriter(c)
          case Err(e) => Err(e)
          case Ok(w) =>
            Ok(PumpSettings(c.name, c.outputType, c.bufferMaxSize.value, storage.value,
              ReportIntervalMs(c.reportIntervalSeconds),
              SettingOr(c.writeMaxPoints, DEFAULT_WRITE_LIMIT),
              SettingOr(c.writeInterval, DEFAULT_WRITE_INTERVAL),
              Truthy(c.dropOnFailWrite), w))
  }

  // ---------------------------------------------------------------------
  // get_output_config, convert_point_to_entry

  /** `get_output_config(point, config_type)`: the node's address for the
      configured output type, or null when it is undefined or the type is
      unknown. */
  function GetOutputConfig(node: NodeConfig, configType: Prim): (r: Prim)
    ensures r == Null || r == node.outInflux || r == node.outMqtt || r == node.outOpcua
    ensures r != Undefined
  {
    if configType == Str(Utils.OUTPUT_INFLUXDB) && node.outInflux != Undefined then node.outInflux
    else if configType == Str(Utils.OUTPUT_MQTT) && node.outMqtt != Undefined then node.outMqtt
    else if configType == Str(Utils.OUTPUT_OPCUA) && node.outOpcua != Undefined then node.outOpcua
    else Null
  }

  /** Each output type reads its own address, and an unknown type none. */
  lemma OutputConfigByType(node: NodeConfig, configType: Prim)
    ensures configType == Str(Utils.OUTPUT_INFLUXDB) && node.outInflux != Undefined ==>
      GetOutputConfig(node, configType) == node.outInflux
    ensures configType == Str(Utils.OUTPUT_MQTT) && node.outMqtt != Undefined ==>
      GetOutputConfig(node, configType) == node.outMqtt
    ensures configType == Str(Utils.OUTPUT_OPCUA) && node.outOpcua != Undefined ==>
      GetOutputConfig(node, configType) == node.outOpcua
    ensures configType !in {Str(Utils.OUTPUT_INFLUXDB), Str(Utils.OUTPUT_MQTT), Str(Utils.OUTPUT_OPCUA)} ==>
      GetOutputConfig(node, configType) == Null
  {
  }

  /** A point is buffered for an output only if its address there is not
      missing, null or the empty string. */
  predicate IsAddressed(node: NodeConfig, configType: Prim) {
    var oc := GetOutputConfig(node, configType);
    !IsNullish(oc) && oc != Str("")
  }

  /** `Object.assign({}, measurement.tags)`: a copy, empty when there are no
      tags. */
  function TagsCopy(tags: Option<Tags>): (r: Tags)
    ensures tags.Some? ==> r == tags.value
    ensures tags.None? ==> r == map[]
  {
    if tags.Some? then tags.value else map[]
  }

  /** The entry `convert_point_to_entry` builds; it has no `_id` yet. */
  function EntryOf(m: Measurement, p: Point, counter: nat, configType: Prim): (e: Entry)
    ensures e.id == Undefined && e.measurementName == m.name
    ensures e.time == p.timestamp && e.value == p.value
    ensures e.tags == TagsCopy(m.tags)
    ensures e.outputConfig == GetOutputConfig(p.node.config, configType)
    ensures e.i == Num(counter as real)
  {
    Entry(Undefined, m.name, p.timestamp, p.value, TagsCopy(m.tags), GetOutputConfig(p.node.config, configType),
      Num(counter as real))
  }

  /** `convert_point_to_entry(measurement, point, counter, config_type)`:
      `Ok(None)` for a point without an address, otherwise the entry, which
      must pass `validate_buffer_entry`. For a decoded point that check
      fails exactly when the measurement's name is not a string. */
  function ConvertPointToEntry(m: Measurement, p: Point, counter: nat, configType: Prim): (r: Result<Option<Entry>>)
    ensures !IsAddressed(p.node.config, configType) ==> r == Ok(None)
    ensures r.Ok? && r.value.Some? ==>
      IsAddressed(p.node.config, configType) && r.value.value == EntryOf(m, p, counter, configType)
    ensures r.Err? ==> r.error == SchemaError
  {
    if !IsAddressed(p.node.config, configType) then Ok(None)
    else
      match ValidateBufferEntry(EntryOf(m, p, counter, configType))
      case Ok(e) => Ok(Some(e))
      case Err(e) => Err(e)
  }

  /** An addressed point is stored exactly when its entry passes
      `validate_buffer_entry`. */
  lemma ConvertChecksEntry(m: Measurement, p: Point, counter: nat, configType: Prim)
    requires IsAddressed(p.node.config, configType)
    ensures ConvertPointToEntry(m, p, counter, configType).Ok? <==> IsValidEntry(EntryOf(m, p, counter, configType))
  {
  }

  /** For a decoded point that check fails exactly when the measurement's
      name is not a string. */
  lemma ConvertDecodedPoint(m: Measurement, p: Point, counter: nat, configType: Prim)
    requires IsValidReadPoint(p)
    ensures ConvertPointToEntry(m, p, counter, configType).Ok? <==> m.name.Str? || !IsAddressed(p.node.config, configType)
  {
  }

  // ---------------------------------------------------------------------
  // AddPointsToBuffer, as a function of the points and the counter

  /** What `AddPointsToBuffer` does with decoded points once it numbers
      them from `counter`: the outcome, the entries inserted (in order) and
      the final counter. */
  datatype AddResult = AddResult(outcome: Outcome, entries: seq<Entry>, counter: nat)

  function AddPoints(m: Measurement, ps: seq<Point>, counter: nat, configType: Prim): (r: AddResult)
    ensures r.counter >= counter
  {
    if ps == [] then AddResult(Pass, [], counter)
    else AddStep(m, ps[|ps| - 1], AddPoints(m, ps[..|ps| - 1], counter, configType), configType)
  }

  /** What one more point does after the points before it: nothing once one
      of them threw; otherwise the counter moves and the point's entry, if
      any, is added, or its error ends the call. */
  function AddStep(m: Measurement, p: Point, prev: AddResult, configType: Prim): (r: AddResult)
    ensures r.counter >= prev.counter
  {
    if prev.outcome.Fail? then prev
    else
      var c := prev.counter + 1;
      match ConvertPointToEntry(m, p, c, configType)
      case Err(e) => AddResult(Fail(e), prev.entries, c)
      case Ok(None) => AddResult(Pass, prev.entries, c)
      case Ok(Some(e)) => AddResult(Pass, prev.entries + [e], c)
  }

  /** The entries of the addressed points, point `k` numbered `counter + k + 1`:
      an independent statement of which entries a successful call stores. */
  function AddressedEntries(m: Measurement, ps: seq<Point>, counter: nat, configType: Prim): (es: seq<Entry>)
    ensures |es| <= |ps|
  {
    if ps == [] then []
    else
      var n := |ps| - 1;
      AddressedEntries(m, ps[..n], counter, configType)
        + (if IsAddressed(ps[n].node.config, configType) then [EntryOf(m, ps[n], counter + n + 1, configType)] else [])
  }

  /** The counter moves once per point handled, so a call that passes moves
      it by the number of points, addressed or not, and one that throws
      stops it at the point that threw. */
  lemma {:induction false} AddPointsCounter(m: Measurement, ps: seq<Point>, counter: nat, configType: Prim)
    ensures AddPoints(m, ps, counter, configType).outcome == Pass ==>
      AddPoints(m, ps, counter, configType).counter == counter + |ps|
    ensures AddPoints(m, ps, counter, configType).outcome.Fail? ==>
      counter < AddPoints(m, ps, counter, configType).counter <= counter + |ps|
    ensures AddPoints(m, ps, counter, configType).outcome.Fail? ==>
      AddPoints(m, ps, counter, configType).outcome.error == SchemaError
  {
    if ps != [] {
      AddPointsCounter(m, ps[..|ps| - 1], counter, configType);
    }
  }

  /** With a measurement whose name is a string, every decoded point is
      handled: the call passes and stores exactly the addressed points, each
      numbered by its position. */
  lemma {:induction false} AddPointsWithStringName(m: Measurement, ps: seq<Point>, counter: nat, configType: Prim)
    requires m.name.Str?
    requires forall k :: 0 <= k < |ps| ==> IsValidReadPoint(ps[k])
    ensures AddPoints(m, ps, counter, configType)
      == AddResult(Pass, AddressedEntries(m, ps, counter, configType), counter + |ps|)
  {
    if ps != [] {
      var n := |ps| - 1;
      forall k | 0 <= k < n ensures IsValidReadPoint(ps[..n][k]) {
        assert ps[..n][k] == ps[k];
      }
      AddPointsWithStringName(m, ps[..n], counter, configType);
      StringNameStep(m, ps, counter, configType);
    }
  }

  /** `AddressedEntries` one point at a time. */
  lemma AddressedSnoc(m: Measurement, ps: seq<Point>, counter: nat, configType: Prim)
    requires ps != []
    ensures var n := |ps| - 1;
      AddressedEntries(m, ps, counter, configType) == AddressedEntries(m, ps[..n], counter, configType)
        + (if IsAddressed(ps[n].node.config, configType) then [EntryOf(m, ps[n], counter + n + 1, configType)] else [])
  {
  }

  lemma StringNameStep(m: Measurement, ps: seq<Point>, counter: nat, configType: Prim)
    requires m.name.Str? && ps != [] && IsValidReadPoint(ps[|ps| - 1])
    requires var n := |ps| - 1;
      AddPoints(m, ps[..n], counter, configType)
        == AddResult(Pass, AddressedEntries(m, ps[..n], counter, configType), counter + n)
    ensures AddPoints(m, ps, counter, configType)
      == AddResult(Pass, AddressedEntries(m, ps, counter, configType), counter + |ps|)
  {
    var n := |ps| - 1;
    var c := counter + n + 1;
    var x := AddPoints(m, ps, counter, configType);
    var y := AddressedEntries(m, ps, counter, configType);
    var conv := ConvertPointToEntry(m, ps[n], c, configType);
    assert x == AddStep(m, ps[n], AddPoints(m, ps[..n], counter, configType), configType);
    ConvertDecodedPoint(m, ps[n], c, configType);
    AddressedSnoc(m, ps, counter, configType);
    var before := AddressedEntries(m, ps[..n], counter, configType);
    if IsAddressed(ps[n].node.config, configType) {
      var e := EntryOf(m, ps[n], c, configType);
      assert conv == Ok(Some(e));
      assert y == before + [e];
      assert x == AddResult(Pass, before + [e], c);
    } else {
      assert conv == Ok(None);
      assert y == before + [];
      assert before + [] == before;
      assert x == AddResult(Pass, before, c);
    }
  }

  /** With a measurement whose name is not a string nothing is stored, and
      the call throws exactly when some point is addressed. */
  lemma {:induction false} AddPointsWithBadName(m: Measurement, ps: seq<Point>, counter: nat, configType: Prim)
    requires !m.name.Str?
    requires forall k :: 0 <= k < |ps| ==> IsValidReadPoint(ps[k])
    ensures AddPoints(m, ps, counter, configType).entries == []
    ensures AddPoints(m, ps, counter, configType).outcome == Pass <==>
      forall k :: 0 <= k < |ps| ==> !IsAddressed(ps[k].node.config, configType)
  {
    if ps != [] {
      var n := |ps| - 1;
      forall k | 0 <= k < n ensures IsValidReadPoint(ps[..n][k]) {
        assert ps[..n][k] == ps[k];
      }
      AddPointsWithBadName(m, ps[..n], counter, configType);
    }
  }

  /** `es` carry no `_id`, decode, and are numbered in strictly increasing
      order within (`lo`, `hi`]. */
  ghost predicate NumberedWithin(es: seq<Entry>, lo: nat, hi: nat) {
    && (forall j :: 0 <= j < |es| ==>
          es[j].id == Undefined && IsValidEntry(es[j]) && lo as real < IOf(es[j]) <= hi as real)
    && (forall j1, j2 :: 0 <= j1 < j2 < |es| ==> IOf(es[j1]) < IOf(es[j2]))
  }

  /** One more entry, numbered above the others. */
  lemma NumberedSnoc(es: seq<Entry>, e: Entry, lo: nat, hi: nat, c: nat)
    requires NumberedWithin(es, lo, hi) && lo <= hi < c
    requires e.id == Undefined && IsValidEntry(e) && IOf(e) == c as real
    ensures NumberedWithin(es + [e], lo, c)
  {
    var es' := es + [e];
    forall j | 0 <= j < |es'|
      ensures es'[j].id == Undefined && IsValidEntry(es'[j]) && lo as real < IOf(es'[j]) <= c as real
    {
      if j < |es| {
        assert es'[j] == es[j];
      }
    }
    forall j | 0 <= j < |es| ensures es'[j] == es[j] && IOf(es'[j]) < IOf(e) {
    }
  }

  /** A wider range still holds the entries. */
  lemma NumberedWiden(es: seq<Entry>, lo: nat, hi: nat, hi': nat)
    requires NumberedWithin(es, lo, hi) && hi <= hi'
    ensures NumberedWithin(es, lo, hi')
  {
  }

  /** The entries stored by a call are numbered in strictly increasing
      order, within the counter's range, and carry no `_id`. */
  lemma {:induction false} AddPointsNumbering(m: Measurement, ps: seq<Point>, counter: nat, configType: Prim)
    ensures NumberedWithin(AddPoints(m, ps, counter, configType).entries, counter, AddPoints(m, ps, counter, configType).counter)
  {
    if ps != [] {
      var n := |ps| - 1;
      AddPointsNumbering(m, ps[..n], counter, configType);
      var prev := AddPoints(m, ps[..n], counter, configType);
      var r := AddPoints(m, ps, counter, configType);
      if prev.outcome.Pass? {
        var c := prev.counter + 1;
        var conv := ConvertPointToEntry(m, ps[n], c, configType);
        if conv.Ok? && conv.value.Some? {
          var e := conv.value.value;
          ConvertChecksEntry(m, ps[n], c, configType);
          NumberedSnoc(prev.entries, e, counter, prev.counter, c);
          assert r == AddResult(Pass, prev.entries + [e], c);
        } else {
          NumberedWiden(prev.entries, counter, prev.counter, c);
          assert r.entries == prev.entries && r.counter == c;
        }
      }
    }
  }

  // ---------------------------------------------------------------------
  // The buffer

  /** The sequence number of an entry. */
  function IOf(e: Entry): real {
    if e.i.Num? then e.i.n else 0.0
  }

  /** The generated `_id` of the entry stored under key `k`; only its
      injectivity matters. */
  function StoreId(k: nat): (s: string)
    ensures |s| == k
  {
    seq(k, _ => '#')
  }

  /** An entry as the store hands it out, with its `_id`. */
  function Stored(k: nat, e: Entry): (r: Entry)
    ensures r.id == Str(StoreId(k))
  {
    e.(id := Str(StoreId(k)))
  }

  /** The invariant of the store: keys below `nextKey`; every entry decoded,
      without `_id`, numbered in (0, `iii`]; and numbering increasing with
      the key, that is, with insertion order. */
  ghost predicate ValidBuffer(buffer: map<nat, Entry>, nextKey: nat, iii: nat) {
    && (forall k :: k in buffer ==> k < nextKey)
    && (forall k :: k in buffer ==>
          IsValidEntry(buffer[k]) && buffer[k].id == Undefined && 0.0 < IOf(buffer[k]) <= iii as real)
    && (forall k1, k2 :: k1 in buffer && k2 in buffer && k1 < k2 ==> IOf(buffer[k1]) < IOf(buffer[k2]))
  }

  /** `buffer` with `es` inserted under the keys `start`, `start + 1`, … */
  function Inserted(buffer: map<nat, Entry>, start: nat, es: seq<Entry>): map<nat, Entry> {
    if es == [] then buffer
    else
      var n := |es| - 1;
      Inserted(buffer, start, es[..n])[start + n := es[n]]
  }

  /** What `Inserted` holds at key `k`: the old keys and the new ones, the
      entries under the new keys in order, and the old entries elsewhere. */
  lemma {:induction false} InsertedAt(buffer: map<nat, Entry>, start: nat, es: seq<Entry>, k: nat)
    ensures var r := Inserted(buffer, start, es);
      && (k in r <==> k in buffer || start <= k < start + |es|)
      && (start <= k < start + |es| ==> r[k] == es[k - start])
      && (k in buffer && !(start <= k < start + |es|) ==> r[k] == buffer[k])
  {
    if es != [] {
      var n := |es| - 1;
      InsertedAt(buffer, start, es[..n], k);
      if start <= k < start + n {
        assert es[..n][k - start] == es[k - start];
      }
    }
  }

  lemma InsertedSnoc(buffer: map<nat, Entry>, start: nat, es: seq<Entry>, e: Entry)
    ensures Inserted(buffer, start, es)[start + |es| := e] == Inserted(buffer, start, es + [e])
  {
    assert (es + [e])[..|es|] == es;
  }

  /** Inserting entries numbered above everything in the store, in
      increasing order, under fresh keys keeps the invariant. */
  lemma InsertKeepsValid(buffer: map<nat, Entry>, start: nat, lo: nat, es: seq<Entry>, hi: nat)
    requires ValidBuffer(buffer, start, lo)
    requires NumberedWithin(es, lo, hi) && lo <= hi
    ensures ValidBuffer(Inserted(buffer, start, es), start + |es|, hi)
  {
    var r := Inserted(buffer, start, es);
    forall k | k in r
      ensures k < start + |es| && IsValidEntry(r[k]) && r[k].id == Undefined && 0.0 < IOf(r[k]) <= hi as real
    {
      InsertedAt(buffer, start, es, k);
    }
    forall k1, k2 | k1 in r && k2 in r && k1 < k2 ensures IOf(r[k1]) < IOf(r[k2]) {
      InsertedAt(buffer, start, es, k1);
      InsertedAt(buffer, start, es, k2);
    }
  }

  /** The entries whose `_id` is not in `ids`, unchanged: `remove({_id:
      {$in: ids}}, {multi: true})`. */
  function RemoveIds(buffer: map<nat, Entry>, ids: seq<Prim>): (r: map<nat, Entry>)
    ensures forall k :: k in r <==> k in buffer && Str(StoreId(k)) !in ids
    ensures forall k :: k in r ==> r[k] == buffer[k]
  {
    map k | k in buffer && Str(StoreId(k)) !in ids :: buffer[k]
  }

  /** Two removals are one removal of both id lists. */
  lemma RemoveIdsTwice(buffer: map<nat, Entry>, a: seq<Prim>, b: seq<Prim>)
    ensures RemoveIds(RemoveIds(buffer, a), b) == RemoveIds(buffer, a + b)
  {
    var lhs, rhs := RemoveIds(RemoveIds(buffer, a), b), RemoveIds(buffer, a + b);
    assert forall k :: k in lhs <==> k in rhs;
    assert lhs.Keys == rhs.Keys;
  }

  /** Removing no ids leaves the store as it is. */
  lemma RemoveNothing(buffer: map<nat, Entry>)
    ensures RemoveIds(buffer, []) == buffer
  {
    assert RemoveIds(buffer, []).Keys == buffer.Keys;
  }

  /** Taking entries out keeps the invariant. */
  lemma RemovalKeepsValid(before: map<nat, Entry>, after: map<nat, Entry>, nextKey: nat, iii: nat)
    requires ValidBuffer(before, nextKey, iii)
    requires forall k :: k in after ==> k in before && after[k] == before[k]
    ensures ValidBuffer(after, nextKey, iii)
  {
  }

  /** A batch drained from `buffer`: `limit` entries or all of them, each
      under a distinct key and carrying its `_id`, in no particular order. */
  ghost predicate IsDrain(buffer: map<nat, Entry>, limit: nat, keys: seq<nat>, batch: seq<Entry>) {
    && |keys| == |batch| == Min(|buffer|, limit)
    && (forall j :: 0 <= j < |keys| ==> keys[j] in buffer && batch[j] == Stored(keys[j], buffer[keys[j]]))
    && (forall j1, j2 :: 0 <= j1 < j2 < |keys| ==> keys[j1] != keys[j2])
  }

  /** Removing the ids of a drained batch removes exactly the batch:
      nothing outside the batch is touched. */
  lemma RemoveDrainedBatch(buffer: map<nat, Entry>, limit: nat, keys: seq<nat>, batch: seq<Entry>, ids: seq<Prim>)
    requires IsDrain(buffer, limit, keys, batch)
    requires forall x :: x in ids ==> x in IdsOf(batch)
    ensures forall k :: k in buffer && k !in keys ==> k in RemoveIds(buffer, ids)
    ensures IdsOf(batch) == ids ==> forall k :: k in RemoveIds(buffer, ids) <==> k in buffer && k !in keys
  {
    var all := IdsOf(batch);
    forall k | k in buffer && k !in keys ensures Str(StoreId(k)) !in all {
      forall j | 0 <= j < |all| ensures all[j] != Str(StoreId(k)) {
        assert all[j] == Str(StoreId(keys[j]));
        assert |StoreId(keys[j])| == keys[j];
      }
    }
    if all == ids {
      forall k | k in buffer && k in keys ensures Str(StoreId(k)) in ids {
        var j :| 0 <= j < |keys| && keys[j] == k;
        assert all[j] == Str(StoreId(k));
      }
    }
  }

  /** The ids a cycle removes: the passed ones, and the failed ones when
      failures are dropped. */
  function RemovedIds(outcome: WriteOutcome, drop: bool): (ids: seq<Prim>)
    ensures |outcome.fail| > 0 && drop ==> ids == outcome.pass + outcome.fail
    ensures !(|outcome.fail| > 0 && drop) ==> ids == outcome.pass
  {
    outcome.pass + (if |outcome.fail| > 0 && drop then outcome.fail else [])
  }

  /** `numberProcessed`. */
  function Processed(outcome: WriteOutcome, drop: bool): (n: nat)
    ensures n == |RemovedIds(outcome, drop)|
  {
    |outcome.pass| + (if |outcome.fail| > 0 && drop then |outcome.fail| else 0)
  }

  /** `calculatedWaitTime`: the next cycle starts at once after a cycle
      that processed `writeLimit` or more entries, else after
      `writeInterval`. */
  function NextWait(processed: nat, writeLimit: nat, writeInterval: nat): (wait: nat)
    ensures wait == 0 || wait == writeInterval
    ensures writeInterval > 0 ==> (wait == 0 <==> processed >= writeLimit)
  {
    if processed < writeLimit then writeInterval else 0
  }

  /** When the writer splits the batch into passed and failed ids, a cycle
      processes the whole batch if failures are dropped and the passed part
      otherwise; so the pump only skips its pause after a full batch. */
  lemma ProcessedForPartition(batch: seq<Entry>, outcome: WriteOutcome, drop: bool, writeLimit: nat, writeInterval: nat)
    requires multiset(outcome.pass) + multiset(outcome.fail) == multiset(IdsOf(batch))
    requires |batch| <= writeLimit && writeInterval > 0
    ensures drop ==> Processed(outcome, drop) == |batch|
    ensures Processed(outcome, drop) <= |batch|
    ensures NextWait(Processed(outcome, drop), writeLimit, writeInterval) == 0 ==> |batch| == writeLimit
  {
    assert |multiset(outcome.pass)| + |multiset(outcome.fail)| == |multiset(IdsOf(batch))|;
  }

  /** `_checkBufferLimit` as a relation: with at most `max` entries nothing
      goes; otherwise exactly `max` entries stay, unchanged, and every entry
      that went is older (lower `i`) than every entry that stayed. */
  ghost predicate IsOldestEviction(before: map<nat, Entry>, after: map<nat, Entry>, max: nat) {
    && (forall k :: k in after ==> k in before && after[k] == before[k])
    && |after| == Min(|before|, max)
    && (forall k1, k2 :: k1 in before && k1 !in after && k2 in after ==> IOf(before[k1]) < IOf(before[k2]))
  }

  /** The eviction is determined: only one set of entries is the newest
      `max`. */
  lemma OldestEvictionIsUnique(before: map<nat, Entry>, a1: map<nat, Entry>, a2: map<nat, Entry>, max: nat)
    requires IsOldestEviction(before, a1, max) && IsOldestEviction(before, a2, max)
    ensures a1 == a2
  {
    KeptByBoth(before, a1, a2, max);
    KeptByBoth(before, a2, a1, max);
    assert a1.Keys == a2.Keys;
    assert forall k :: k in a1 ==> a1[k] == a2[k];
  }

  lemma KeptByBoth(before: map<nat, Entry>, a1: map<nat, Entry>, a2: map<nat, Entry>, max: nat)
    requires IsOldestEviction(before, a1, max) && IsOldestEviction(before, a2, max)
    ensures a1.Keys <= a2.Keys
  {
    if k1 :| k1 in a1 && k1 !in a2 {
      forall k | k in a2 ensures k in a1 {
        assert IOf(before[k1]) < IOf(before[k]);
      }
      SubsetCard(a2.Keys, a1.Keys - {k1});
      assert false;
    }
  }

  lemma SubsetCard(a: set<nat>, b: set<nat>)
    requires a <= b
    ensures |a| <= |b|
  {
    assert b == a + (b - a);
  }

  /** A strictly increasing sequence has as many elements as the set of
      its elements. */
  lemma {:induction false} IncreasingCard(s: seq<nat>, t: set<nat>)
    requires forall j1, j2 :: 0 <= j1 < j2 < |s| ==> s[j1] < s[j2]
    requires forall x :: x in t <==> x in s
    ensures |t| == |s|
  {
    if s != [] {
      var n := |s| - 1;
      var t' := t - {s[n]};
      forall x ensures x in t' <==> x in s[..n] {
        if x in s[..n] {
          var j :| 0 <= j < n && s[..n][j] == x;
          assert s[j] < s[n];
        }
        if x in t' {
          var j :| 0 <= j < |s| && s[j] == x;
          assert s[..n][j] == x;
        }
      }
      IncreasingCard(s[..n], t');
    }
  }

  // ---------------------------------------------------------------------
  // The pump

  class WritePump {
    const settings: PumpSettings
    const reporting: WritePumpReporting
    var buffer: map<nat, Entry>
    var nextKey: nat
    var iii: nat

    ghost predicate Valid()
      reads this
    {
      ValidBuffer(buffer, nextKey, iii)
    }

    /** The state after `new WritePump(...)` once `NewPumpSettings` has
        accepted the configuration: an empty store, the counter at 0 and a
        reset report. */
    constructor (settings: PumpSettings, now: int)
      ensures this.settings == settings
      ensures buffer == map[] && nextKey == 0 && iii == 0
      ensures fresh(reporting) && reporting.reportIntervalMs == settings.reportIntervalMs
      ensures reporting.totalItemsWritten == 0 && reporting.totalWriteCycles == 0
      ensures reporting.startTimeMs == now && reporting.lastAvgReportTime == now
      ensures Valid()
    {
      this.settings := settings;
      reporting := new WritePumpReporting(settings.reportIntervalMs, now);
      buffer := map[];
      nextKey := 0;
      iii := 0;
    }

    /** `GetNumberOfPointsInBuffer`. */
    function GetNumberOfPointsInBuffer(): (n: nat)
      reads this
      ensures n == |buffer.Keys|
    {
      |buffer|
    }

    /** `AddPointsToBuffer(measurement, points)`: nothing changes when a
        point does not decode; otherwise the points are numbered and the
        addressed ones inserted in order, as `AddPoints` says. */
    method AddPointsToBuffer(m: Measurement, points: seq<Point>) returns (r: Outcome)
      requires Valid()
      modifies this
      ensures Valid()
      ensures ValidatePointArray(points).Err? ==>
        r == Fail(SchemaError) && buffer == old(buffer) && iii == old(iii) && nextKey == old(nextKey)
      ensures ValidatePointArray(points).Ok? ==>
        var a := AddPoints(m, points, old(iii), settings.configType);
        && r == a.outcome
        && iii == a.counter
        && nextKey == old(nextKey) + |a.entries|
        && buffer == Inserted(old(buffer), old(nextKey), a.entries)
    {
      var validated := ValidatePointArray(points);
      if validated.Err? {
        return Fail(validated.error);
      }
      ghost var b0, k0, c0 := buffer, nextKey, iii;
      ghost var ct := settings.configType;
      r := InsertPoints(m, points);
      AddPointsNumbering(m, points, c0, ct);
      InsertKeepsValid(b0, k0, c0, AddPoints(m, points, c0, ct).entries, iii);
    }

    /** The `forEach` of `AddPointsToBuffer` over decoded points: it stops
        at the first point that throws. */
    method InsertPoints(m: Measurement, points: seq<Point>) returns (r: Outcome)
      modifies this`buffer, this`nextKey, this`iii
      ensures AddedAll(m, points, old(iii), settings.configType, old(buffer), old(nextKey), buffer, nextKey, iii, r)
    {
      ghost var b0, k0, c0 := buffer, nextKey, iii;
      ghost var ct := settings.configType;
      var j := 0;
      while j < |points|
        invariant 0 <= j <= |points|
        invariant AddedUpTo(m, points, j, c0, ct, b0, k0, buffer, nextKey, iii)
      {
        ghost var buffer1, nextKey1, iii1 := buffer, nextKey, iii;
        var entry := AddPoint(m, points[j]);
        if entry.Err? {
          AddedFails(m, points, j, c0, ct, b0, k0, buffer, nextKey, iii1, entry);
          return Fail(entry.error);
        }
        AddedStep(m, points, j, c0, ct, b0, k0, buffer1, nextKey1, iii1, buffer, nextKey, entry);
        j := j + 1;
      }
      AddedComplete(m, points, c0, ct, b0, k0, buffer, nextKey, iii);
      r := Pass;
    }

    /** One step of the `forEach`: the counter moves, and the entry for
        point `p`, if there is one, goes in under the next key. */
    method AddPoint(m: Measurement, p: Point) returns (r: Result<Option<Entry>>)
      modifies this`buffer, this`nextKey, this`iii
      ensures iii == old(iii) + 1
      ensures r == ConvertPointToEntry(m, p, iii, settings.configType)
      ensures r.Ok? && r.value.Some? ==> buffer == old(buffer)[old(nextKey) := r.value.value] && nextKey == old(nextKey) + 1
      ensures !(r.Ok? && r.value.Some?) ==> buffer == old(buffer) && nextKey == old(nextKey)
    {
      iii := iii + 1;
      r := ConvertPointToEntry(m, p, iii, settings.configType);
      if r.Ok? && r.value.Some? {
        buffer := buffer[nextKey := r.value.value];
        nextKey := nextKey + 1;
      }
    }

    /** `find({}, {}).limit(writeLimit)`: up to `writeLimit` entries, in
        an order the store chooses. Nothing changes. */
    method Drain() returns (keys: seq<nat>, batch: seq<Entry>)
      ensures IsDrain(buffer, settings.writeLimit, keys, batch)
    {
      keys, batch := [], [];
      var remaining := buffer.Keys;
      while |keys| < settings.writeLimit && remaining != {}
        invariant forall k :: k in buffer <==> k in remaining || k in keys
        invariant forall k :: k in remaining ==> k !in keys
        invariant |remaining| + |keys| == |buffer|
        invariant |keys| == |batch| <= settings.writeLimit
        invariant forall j :: 0 <= j < |keys| ==> keys[j] in buffer && batch[j] == Stored(keys[j], buffer[keys[j]])
        invariant forall j1, j2 :: 0 <= j1 < j2 < |keys| ==> keys[j1] != keys[j2]
        decreases |remaining|
      {
        var k :| k in remaining;
        keys := keys + [k];
        batch := batch + [Stored(k, buffer[k])];
        remaining := remaining - {k};
      }
    }

    /** Removing the ids a writer passed, and the failed ones when
        `dropOnFailWrite` is set and there are any. */
    method Reconcile(outcome: WriteOutcome)
      requires Valid()
      modifies this`buffer
      ensures Valid()
      ensures buffer == RemoveIds(old(buffer), RemovedIds(outcome, settings.dropOnFailWrite))
      ensures nextKey == old(nextKey) && iii == old(iii)
    {
      ghost var b0 := buffer;
      if |outcome.pass| > 0 {
        buffer := RemoveIds(buffer, outcome.pass);
      } else {
        RemoveNothing(b0);
      }
      if |outcome.fail| > 0 && settings.dropOnFailWrite {
        RemoveIdsTwice(b0, outcome.pass, outcome.fail);
        buffer := RemoveIds(buffer, outcome.fail);
      }
      assert buffer == RemoveIds(b0, RemovedIds(outcome, settings.dropOnFailWrite));
      RemovalKeepsValid(b0, buffer, nextKey, iii);
    }

    /** The keys of the store in ascending order, which is ascending `i`:
        the `sort({i: 1})` of the eviction query. */
    method SortedByI() returns (docs: seq<nat>)
      requires Valid()
      ensures SortedKeys(buffer, docs)
    {
      docs := [];
      var k := 0;
      while k < nextKey
        invariant 0 <= k <= nextKey
        invariant forall j :: 0 <= j < |docs| ==> docs[j] in buffer && docs[j] < k
        invariant forall x :: x in buffer && x < k ==> x in docs
        invariant forall j1, j2 :: 0 <= j1 < j2 < |docs| ==> docs[j1] < docs[j2]
      {
        if k in buffer {
          docs := docs + [k];
        }
        k := k + 1;
      }
    }

    /** `_checkBufferLimit`: evicts the oldest entries beyond
        `bufferMaxSize` and returns how many went. */
    method CheckBufferLimit() returns (removed: nat)
      requires Valid()
      modifies this`buffer
      ensures Valid()
      ensures IsOldestEviction(old(buffer), buffer, settings.bufferMaxSize)
      ensures removed == |old(buffer)| - Min(|old(buffer)|, settings.bufferMaxSize)
      ensures nextKey == old(nextKey) && iii == old(iii)
    {
      var docs := SortedByI();
      SortedKeysCount(buffer, docs);
      var numberOfItemsToDelete := |docs| - settings.bufferMaxSize;
      if numberOfItemsToDelete <= 0 {
        NoEviction(buffer, settings.bufferMaxSize);
        return 0;
      }
      var toDelete: seq<Prim> := [];
      var i := 0;
      while i < numberOfItemsToDelete
        invariant 0 <= i <= numberOfItemsToDelete
        invariant |toDelete| == i
        invariant forall j :: 0 <= j < i ==> toDelete[j] == Str(StoreId(docs[j]))
      {
        toDelete := toDelete + [Str(StoreId(docs[i]))];
        i := i + 1;
      }
      ghost var before := buffer;
      buffer := RemoveIds(buffer, toDelete);
      EvictOldest(before, buffer, docs, toDelete, settings.bufferMaxSize);
      RemovalKeepsValid(before, buffer, nextKey, iii);
      removed := numberOfItemsToDelete;
    }

    /** The final callback of `_exec_write_cycle`, given what the writer
        reported: count the written items and check the report (unless the
        writer reported an error), remove what was processed, choose the
        wait, evict. */
    method FinishCycle(outcome: WriteOutcome, now: int) returns (wait: nat)
      requires Valid()
      modifies this, reporting
      ensures Valid()
      ensures nextKey == old(nextKey) && iii == old(iii)
      ensures wait == NextWait(Processed(outcome, settings.dropOnFailWrite), settings.writeLimit, settings.writeInterval)
      ensures IsOldestEviction(RemoveIds(old(buffer), RemovedIds(outcome, settings.dropOnFailWrite)), buffer,
                               settings.bufferMaxSize)
      ensures reporting.totalWriteCycles == old(reporting.totalWriteCycles)
      ensures reporting.startTimeMs == old(reporting.startTimeMs)
      ensures reporting.totalItemsWritten == old(reporting.totalItemsWritten) + (if outcome.err then 0 else |outcome.pass|)
      ensures reporting.lastAvgReportTime ==
        if !outcome.err && ReportDue(now, old(reporting.lastAvgReportTime), reporting.reportIntervalMs) then now
        else old(reporting.lastAvgReportTime)
    {
      var numberProcessed := |outcome.pass|;
      if !outcome.err {
        reporting.RegisterWrites(numberProcessed);
        var reported := reporting.LogWriteReport(now);
      }
      Reconcile(outcome);
      if |outcome.fail| > 0 && settings.dropOnFailWrite {
        numberProcessed := numberProcessed + |outcome.fail|;
      }
      wait := settings.writeInterval;
      if numberProcessed >= settings.writeLimit {
        wait := 0;
      }
      var evicted := CheckBufferLimit();
    }

    /** `_exec_write_cycle`: drain a batch, write it if it is not empty
        (counting the cycle), then finish as `FinishCycle` says. The result
        is the wait before the next cycle; a writer that throws ends the
        cycle with its error and the store untouched. */
    method ExecWriteCycle(write: seq<Entry> -> Result<WriteOutcome>, now: int)
      returns (r: Result<nat>, keys: seq<nat>, batch: seq<Entry>, outcome: WriteOutcome)
      requires Valid()
      modifies this, reporting
      ensures Valid()
      ensures IsDrain(old(buffer), settings.writeLimit, keys, batch)
      ensures nextKey == old(nextKey) && iii == old(iii)
      ensures reporting.totalWriteCycles == old(reporting.totalWriteCycles) + (if |batch| > 0 then 1 else 0)
      ensures reporting.startTimeMs == old(reporting.startTimeMs)
      ensures |batch| > 0 && write(batch).Err? ==>
        && r == Err(write(batch).error)
        && buffer == old(buffer)
        && reporting.totalItemsWritten == old(reporting.totalItemsWritten)
        && reporting.lastAvgReportTime == old(reporting.lastAvgReportTime)
      ensures |batch| == 0 || write(batch).Ok? ==>
        && outcome == (if |batch| == 0 then WriteOutcome(false, [], []) else write(batch).value)
        && r == Ok(NextWait(Processed(outcome, settings.dropOnFailWrite), settings.writeLimit, settings.writeInterval))
        && IsOldestEviction(RemoveIds(old(buffer), RemovedIds(outcome, settings.dropOnFailWrite)), buffer,
                            settings.bufferMaxSize)
        && reporting.totalItemsWritten == old(reporting.totalItemsWritten) + (if outcome.err then 0 else |outcome.pass|)
        && reporting.lastAvgReportTime ==
             if !outcome.err && ReportDue(now, old(reporting.lastAvgReportTime), reporting.reportIntervalMs) then now
             else old(reporting.lastAvgReportTime)
    {
      keys, batch := Drain();
      if |batch| <= 0 {
        outcome := WriteOutcome(false, [], []);
      } else {
        reporting.RegisterWriteCycle();
        var written := write(batch);
        if written.Err? {
          return Err(written.error), keys, batch, WriteOutcome(true, [], []);
        }
        outcome := written.value;
      }
      var wait := FinishCycle(outcome, now);
      r := Ok(wait);
    }
  }

  /** One more point: what `AddPoints` does with it after the points before
      it passed. */
  lemma AddPointsSnoc(m: Measurement, ps: seq<Point>, j: nat, counter: nat, configType: Prim)
    requires j < |ps|
    requires AddPoints(m, ps[..j], counter, configType).outcome == Pass
    ensures var prev := AddPoints(m, ps[..j], counter, configType);
      var c := prev.counter + 1;
      AddPoints(m, ps[..j + 1], counter, configType) ==
        match ConvertPointToEntry(m, ps[j], c, configType)
        case Err(e) => AddResult(Fail(e), prev.entries, c)
        case Ok(None) => AddResult(Pass, prev.entries, c)
        case Ok(Some(e)) => AddResult(Pass, prev.entries + [e], c)
  {
    var qs := ps[..j + 1];
    assert qs[..j] == ps[..j] && qs[j] == ps[j];
    AddPointsUnfold(m, qs, counter, configType);
  }

  /** One unfolding of `AddPoints` past a passing prefix. */
  lemma AddPointsUnfold(m: Measurement, qs: seq<Point>, counter: nat, configType: Prim)
    requires qs != []
    requires AddPoints(m, qs[..|qs| - 1], counter, configType).outcome == Pass
    ensures var n := |qs| - 1;
      var prev := AddPoints(m, qs[..n], counter, configType);
      var c := prev.counter + 1;
      AddPoints(m, qs, counter, configType) ==
        match ConvertPointToEntry(m, qs[n], c, configType)
        case Err(e) => AddResult(Fail(e), prev.entries, c)
        case Ok(None) => AddResult(Pass, prev.entries, c)
        case Ok(Some(e)) => AddResult(Pass, prev.entries + [e], c)
  {
    var n := |qs| - 1;
    assert AddPoints(m, qs, counter, configType) == AddStep(m, qs[n], AddPoints(m, qs[..n], counter, configType), configType);
  }

  /** The store after the first `j` points were handled without an error:
      the counter, the next key and the store are those `AddPoints` gives
      for that prefix. */
  ghost predicate AddedUpTo(m: Measurement, ps: seq<Point>, j: nat, counter: nat, configType: Prim,
                            b0: map<nat, Entry>, k0: nat, buffer: map<nat, Entry>, nextKey: nat, iii: nat)
    requires j <= |ps|
  {
    var a := AddPoints(m, ps[..j], counter, configType);
    && a.outcome == Pass && iii == a.counter
    && nextKey == k0 + |a.entries| && buffer == Inserted(b0, k0, a.entries)
  }

  /** The store after the whole call: the outcome, the counter, the next
      key and the store are those `AddPoints` gives. */
  ghost predicate AddedAll(m: Measurement, ps: seq<Point>, counter: nat, configType: Prim,
                           b0: map<nat, Entry>, k0: nat, buffer: map<nat, Entry>, nextKey: nat, iii: nat, r: Outcome)
  {
    var a := AddPoints(m, ps, counter, configType);
    && r == a.outcome && iii == a.counter
    && nextKey == k0 + |a.entries| && buffer == Inserted(b0, k0, a.entries)
  }

  /** A `forEach` that reaches the end passes. */
  lemma AddedComplete(m: Measurement, ps: seq<Point>, counter: nat, configType: Prim,
                      b0: map<nat, Entry>, k0: nat, buffer: map<nat, Entry>, nextKey: nat, iii: nat)
    requires AddedUpTo(m, ps, |ps|, counter, configType, b0, k0, buffer, nextKey, iii)
    ensures AddedAll(m, ps, counter, configType, b0, k0, buffer, nextKey, iii, Pass)
  {
    assert ps[..|ps|] == ps;
  }

  /** A point that throws ends the call with its error; the store keeps
      what the points before it added. */
  lemma AddedFails(m: Measurement, ps: seq<Point>, j: nat, counter: nat, configType: Prim,
                   b0: map<nat, Entry>, k0: nat, buffer: map<nat, Entry>, nextKey: nat, iii: nat,
                   r: Result<Option<Entry>>)
    requires j < |ps|
    requires AddedUpTo(m, ps, j, counter, configType, b0, k0, buffer, nextKey, iii)
    requires r == ConvertPointToEntry(m, ps[j], iii + 1, configType) && r.Err?
    ensures AddedAll(m, ps, counter, configType, b0, k0, buffer, nextKey, iii + 1, Fail(r.error))
  {
    var prev := AddPoints(m, ps[..j], counter, configType);
    AddPointsFailsAt(m, ps, j, counter, configType);
    assert AddPoints(m, ps, counter, configType) == AddResult(Fail(r.error), prev.entries, iii + 1);
  }

  /** One step of the `forEach` that does not throw. */
  lemma AddedStep(m: Measurement, ps: seq<Point>, j: nat, counter: nat, configType: Prim,
                  b0: map<nat, Entry>, k0: nat, buffer: map<nat, Entry>, nextKey: nat, iii: nat,
                  buffer': map<nat, Entry>, nextKey': nat, r: Result<Option<Entry>>)
    requires j < |ps|
    requires AddedUpTo(m, ps, j, counter, configType, b0, k0, buffer, nextKey, iii)
    requires r == ConvertPointToEntry(m, ps[j], iii + 1, configType) && r.Ok?
    requires r.value.Some? ==> buffer' == buffer[nextKey := r.value.value] && nextKey' == nextKey + 1
    requires r.value.None? ==> buffer' == buffer && nextKey' == nextKey
    ensures AddedUpTo(m, ps, j + 1, counter, configType, b0, k0, buffer', nextKey', iii + 1)
  {
    var prev := AddPoints(m, ps[..j], counter, configType);
    AddPointsPassStep(m, ps, j, counter, configType, r.value);
    StoreStep(b0, k0, prev.entries, r.value, buffer, nextKey, buffer', nextKey');
  }

  /** A point that converts without an error adds its entry, if any. */
  lemma AddPointsPassStep(m: Measurement, ps: seq<Point>, j: nat, counter: nat, configType: Prim, o: Option<Entry>)
    requires j < |ps|
    requires AddPoints(m, ps[..j], counter, configType).outcome == Pass
    requires ConvertPointToEntry(m, ps[j], AddPoints(m, ps[..j], counter, configType).counter + 1, configType) == Ok(o)
    ensures var prev := AddPoints(m, ps[..j], counter, configType);
      AddPoints(m, ps[..j + 1], counter, configType)
        == AddResult(Pass, if o.Some? then prev.entries + [o.value] else prev.entries, prev.counter + 1)
  {
    AddPointsSnoc(m, ps, j, counter, configType);
  }

  /** The store after one more optional entry went in under the next key. */
  lemma StoreStep(b0: map<nat, Entry>, k0: nat, es: seq<Entry>, o: Option<Entry>,
                  buffer: map<nat, Entry>, nextKey: nat, buffer': map<nat, Entry>, nextKey': nat)
    requires buffer == Inserted(b0, k0, es) && nextKey == k0 + |es|
    requires o.Some? ==> buffer' == buffer[nextKey := o.value] && nextKey' == nextKey + 1
    requires o.None? ==> buffer' == buffer && nextKey' == nextKey
    ensures var es' := if o.Some? then es + [o.value] else es;
      buffer' == Inserted(b0, k0, es') && nextKey' == k0 + |es'|
  {
    if o.Some? {
      InsertedSnoc(b0, k0, es, o.value);
    }
  }

  /** A point that throws after a passing prefix ends the whole call with
      its error, the prefix's entries and the counter at that point. */
  lemma AddPointsFailsAt(m: Measurement, ps: seq<Point>, j: nat, counter: nat, configType: Prim)
    requires j < |ps|
    requires AddPoints(m, ps[..j], counter, configType).outcome == Pass
    requires ConvertPointToEntry(m, ps[j], AddPoints(m, ps[..j], counter, configType).counter + 1, configType).Err?
    ensures var prev := AddPoints(m, ps[..j], counter, configType);
      var c := prev.counter + 1;
      AddPoints(m, ps, counter, configType)
        == AddResult(Fail(ConvertPointToEntry(m, ps[j], c, configType).error), prev.entries, c)
  {
    AddPointsSnoc(m, ps, j, counter, configType);
    if j + 1 < |ps| {
      AddPointsStopsAtFailure(m, ps, j + 1, counter, configType);
    } else {
      assert ps[..j + 1] == ps;
    }
  }

  /** A call that throws at point `j - 1` ends there: handling more points
      does not change its result. */
  lemma {:induction false} AddPointsStopsAtFailure(m: Measurement, ps: seq<Point>, j: nat, counter: nat, configType: Prim)
    requires 0 < j <= |ps|
    requires AddPoints(m, ps[..j], counter, configType).outcome.Fail?
    ensures AddPoints(m, ps, counter, configType) == AddPoints(m, ps[..j], counter, configType)
    decreases |ps| - j
  {
    if j == |ps| {
      assert ps[..j] == ps;
    } else {
      var n := |ps| - 1;
      assert ps[..n][..j] == ps[..j];
      if j < n {
        AddPointsStopsAtFailure(m, ps[..n], j, counter, configType);
      } else {
        assert ps[..n] == ps[..j];
      }
    }
  }

  /** A store within its bound keeps every entry. */
  lemma NoEviction(buffer: map<nat, Entry>, max: nat)
    requires |buffer| <= max
    ensures IsOldestEviction(buffer, buffer, max)
  {
  }

  /** `docs` lists the keys of `buffer` in ascending order, which is
      ascending `i`. */
  ghost predicate SortedKeys(buffer: map<nat, Entry>, docs: seq<nat>) {
    && (forall j :: 0 <= j < |docs| ==> docs[j] in buffer)
    && (forall k :: k in buffer ==> k in docs)
    && (forall j1, j2 :: 0 <= j1 < j2 < |docs| ==> docs[j1] < docs[j2])
    && (forall j1, j2 :: 0 <= j1 < j2 < |docs| ==> IOf(buffer[docs[j1]]) < IOf(buffer[docs[j2]]))
  }

  /** The sorted key list is as long as the store. */
  lemma SortedKeysCount(buffer: map<nat, Entry>, docs: seq<nat>)
    requires SortedKeys(buffer, docs)
    ensures |docs| == |buffer|
  {
    IncreasingCard(docs, buffer.Keys);
  }

  /** Deleting the ids of the first `|docs| - max` sorted keys is the
      eviction of the oldest entries. */
  lemma EvictOldest(before: map<nat, Entry>, after: map<nat, Entry>, docs: seq<nat>, toDelete: seq<Prim>, max: nat)
    requires SortedKeys(before, docs) && max < |docs|
    requires |toDelete| == |docs| - max && forall j :: 0 <= j < |toDelete| ==> toDelete[j] == Str(StoreId(docs[j]))
    requires after == RemoveIds(before, toDelete)
    ensures IsOldestEviction(before, after, max)
  {
    SortedKeysCount(before, docs);
    EvictPrefix(before, after, docs, toDelete, |docs| - max);
    EvictionFromPrefix(before, after, max);
  }

  /** What `EvictPrefix` shows, as an eviction down to `max`. */
  lemma EvictionFromPrefix(before: map<nat, Entry>, after: map<nat, Entry>, max: nat)
    requires max < |before| && |after| == max
    requires forall k :: k in after ==> k in before && after[k] == before[k]
    requires forall k1, k2 :: k1 in before && k1 !in after && k2 in after ==> IOf(before[k1]) < IOf(before[k2])
    ensures IsOldestEviction(before, after, max)
  {
  }

  lemma EvictPrefix(before: map<nat, Entry>, after: map<nat, Entry>, docs: seq<nat>, toDelete: seq<Prim>, n: nat)
    requires SortedKeys(before, docs)
    requires 0 < n <= |docs|
    requires |toDelete| == n && forall j :: 0 <= j < n ==> toDelete[j] == Str(StoreId(docs[j]))
    requires after == RemoveIds(before, toDelete)
    ensures |after| == |docs| - n
    ensures forall k1, k2 :: k1 in before && k1 !in after && k2 in after ==> IOf(before[k1]) < IOf(before[k2])
  {
    RemovedByPosition(before, after, docs, toDelete, n);
    KeptSuffixCount(before, after, docs, n);
    KeptSuffixNewer(before, after, docs, n);
  }

  /** Keeping the sorted keys from position `n` on keeps `|docs| - n`
      entries. */
  lemma KeptSuffixCount(before: map<nat, Entry>, after: map<nat, Entry>, docs: seq<nat>, n: nat)
    requires SortedKeys(before, docs) && n <= |docs|
    requires forall k :: k in after ==> k in before
    requires forall j :: 0 <= j < |docs| ==> (docs[j] in after <==> j >= n)
    ensures |after| == |docs| - n
  {
    SuffixKeys(before, after, docs, n);
    SuffixIncreasing(docs, n);
    IncreasingCard(docs[n..], after.Keys);
  }

  /** The kept keys are the sorted keys from position `n` on. */
  lemma SuffixKeys(before: map<nat, Entry>, after: map<nat, Entry>, docs: seq<nat>, n: nat)
    requires n <= |docs|
    requires forall k :: k in before ==> k in docs
    requires forall k :: k in after ==> k in before
    requires forall j :: 0 <= j < |docs| ==> (docs[j] in after <==> j >= n)
    ensures forall x :: x in after.Keys <==> x in docs[n..]
  {
    var rest := docs[n..];
    forall x ensures x in after.Keys <==> x in rest {
      if x in after {
        var j :| 0 <= j < |docs| && docs[j] == x;
        assert rest[j - n] == x;
      }
      if x in rest {
        var m :| 0 <= m < |rest| && rest[m] == x;
        assert docs[n + m] == x;
      }
    }
  }

  /** A suffix of a strictly increasing sequence is strictly increasing. */
  lemma SuffixIncreasing(docs: seq<nat>, n: nat)
    requires n <= |docs|
    requires forall j1, j2 :: 0 <= j1 < j2 < |docs| ==> docs[j1] < docs[j2]
    ensures forall j1, j2 :: 0 <= j1 < j2 < |docs[n..]| ==> docs[n..][j1] < docs[n..][j2]
  {
    var rest := docs[n..];
    forall j1, j2 | 0 <= j1 < j2 < |rest| ensures rest[j1] < rest[j2] {
      assert rest[j1] == docs[n + j1] && rest[j2] == docs[n + j2];
    }
  }

  /** Every dropped entry is older than every kept one. */
  lemma KeptSuffixNewer(before: map<nat, Entry>, after: map<nat, Entry>, docs: seq<nat>, n: nat)
    requires SortedKeys(before, docs) && n <= |docs|
    requires forall k :: k in after ==> k in before
    requires forall j :: 0 <= j < |docs| ==> (docs[j] in after <==> j >= n)
    ensures forall k1, k2 :: k1 in before && k1 !in after && k2 in after ==> IOf(before[k1]) < IOf(before[k2])
  {
    forall k1, k2 | k1 in before && k1 !in after && k2 in after ensures IOf(before[k1]) < IOf(before[k2]) {
      var a :| 0 <= a < |docs| && docs[a] == k1;
      var b :| 0 <= b < |docs| && docs[b] == k2;
      assert a < n <= b;
    }
  }

  /** The entry at position `j` of the ascending key list goes exactly
      when `j < n`. */
  lemma RemovedByPosition(before: map<nat, Entry>, after: map<nat, Entry>, docs: seq<nat>, toDelete: seq<Prim>, n: nat)
    requires forall j :: 0 <= j < |docs| ==> docs[j] in before
    requires forall j1, j2 :: 0 <= j1 < j2 < |docs| ==> docs[j1] < docs[j2]
    requires n <= |docs|
    requires |toDelete| == n && forall j :: 0 <= j < n ==> toDelete[j] == Str(StoreId(docs[j]))
    requires after == RemoveIds(before, toDelete)
    ensures forall j :: 0 <= j < |docs| ==> (docs[j] in after <==> j >= n)
  {
    forall j | 0 <= j < |docs| ensures docs[j] in after <==> j >= n {
      if j >= n {
        forall d | 0 <= d < n ensures toDelete[d] != Str(StoreId(docs[j])) {
          assert docs[d] < docs[j];
          assert |StoreId(docs[d])| == docs[d];
        }
      } else {
        assert toDelete[j] == Str(StoreId(docs[j]));
      }
    }
  }
}
