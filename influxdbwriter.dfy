/** writers/influxdbwriter.js: the constructor's checks and options, and
    `Write`, which turns a batch into InfluxDB points and reports the whole
    batch as passed or failed together. The InfluxDB client itself is left
    out; the settlement of its `writePoints` promise is a parameter. */
module InfluxDbWriter {
  import opened Js
  import opened Outcomes
  import opened Points
  import opened Config
  import opened Validators
  import opened BaseWriter
  import Utils

  /** The options object the InfluxDB client is created with. The optional
      fields are present only when the configured value is truthy. */
  datatype InfluxOptions = InfluxOptions(
    host: Prim,
    username: Prim,
    password: Prim,
    database: Prim,
    port: Option<Prim>,
    protocol: Option<Prim>,
    requestOptions: Option<Prim>)

  /** `_writeOptions`. */
  datatype WriteOptions = WriteOptions(precision: string, retentionPolicy: Option<Prim>)

  datatype InfluxSettings = InfluxSettings(options: InfluxOptions, writeOptions: WriteOptions)

  /** The InfluxDbWriter constructor: the BaseWriter check, then a non-blank
      `host`, then a non-blank `database`. */
  function NewInfluxDbWriter(config: Option<OutputConfig>): (r: Result<InfluxSettings>)
    ensures r.Ok? <==>
      && config.Some?
      && Utils.ValidateConfigurationStringProperty(config.value.host, true) == Pass
      && Utils.ValidateConfigurationStringProperty(config.value.database, true) == Pass
    ensures config.None? ==> r == Err(ConfigurationError)
    ensures config.Some? && IsNullish(config.value.host) ==> r == Err(ConfigurationError)
    ensures config.Some? && config.value.host.Str? && IsBlank(config.value.host.s) ==>
      r == Err(ConfigurationError)
    ensures config.Some? && !IsNullish(config.value.host) && !config.value.host.Str? ==>
      r == Err(TypeError)
    ensures config.Some? && Utils.ValidateConfigurationStringProperty(config.value.host, true) == Pass ==>
      IsNullish(config.value.database) ==> r == Err(ConfigurationError)
    ensures config.Some? && Utils.ValidateConfigurationStringProperty(config.value.host, true) == Pass ==>
      config.value.database.Str? && IsBlank(config.value.database.s) ==> r == Err(ConfigurationError)
    ensures config.Some? && Utils.ValidateConfigurationStringProperty(config.value.host, true) == Pass ==>
      !IsNullish(config.value.database) && !config.value.database.Str? ==> r == Err(TypeError)
    ensures r.Ok? ==>
      && r.value.options.host == config.value.host
      && r.value.options.username == config.value.username
      && r.value.options.password == config.value.password
      && r.value.options.database == config.value.database
      && (r.value.options.port.Some? ==> r.value.options.port.value == config.value.port)
      && (r.value.options.protocol.Some? <==> Truthy(config.value.protocol))
      && (r.value.options.protocol.Some? ==> r.value.options.protocol.value == config.value.protocol)
      && (r.value.options.requestOptions.Some? <==> Truthy(config.value.requestOptions))
      && (r.value.options.requestOptions.Some? ==>
            r.value.options.requestOptions.value == config.value.requestOptions)
      && r.value.writeOptions.precision == "ms"
      && (r.value.writeOptions.retentionPolicy.Some? <==> Truthy(config.value.retentionPolicy))
      && (r.value.writeOptions.retentionPolicy.Some? ==>
            r.value.writeOptions.retentionPolicy.value == config.value.retentionPolicy)
      && (r.value.options.port.Some? <==> Truthy(config.value.port))
  {
    match CheckWriterConfig(config)
    case Fail(e) => Err(e)
    case Pass =>
      var c := config.value;
      match Utils.ValidateConfigurationStringProperty(c.host, true)
      case Fail(e) => Err(e)
      case Pass =>
        match Utils.ValidateConfigurationStringProperty(c.database, true)
        case Fail(e) => Err(e)
        case Pass =>
          var options := InfluxOptions(c.host, c.username, c.password, c.database,
            IfTruthy(c.port), IfTruthy(c.protocol), IfTruthy(c.requestOptions));
          Ok(InfluxSettings(options, WriteOptions("ms", IfTruthy(c.retentionPolicy))))
  }

  /** A point of the InfluxDB client: one field, named after the entry's
      `output_config`. */
  datatype InfluxPoint = InfluxPoint(
    measurement: Prim,
    tags: Tags,
    fields: map<string, Prim>,
    timestamp: Prim)

  /** The point built for an entry whose `output_config` is a string. */
  function PointOf(e: Entry): (p: InfluxPoint)
    requires e.outputConfig.Str?
    ensures p.measurement == e.measurementName && p.tags == e.tags && p.timestamp == e.time
    ensures p.fields.Keys == {e.outputConfig.s} && p.fields[e.outputConfig.s] == e.value
  {
    InfluxPoint(e.measurementName, e.tags, map[e.outputConfig.s := e.value], e.time)
  }

  /** How the `writePoints` promise settles. */
  datatype DbOutcome = Resolved | Rejected

  /** `InfluxDbWriter.Write(docs, callback)`. `written` is the array handed to
      `writePoints`, empty when the database is not called. The `try` around
      the point construction guards nothing that can throw once ValidateEntry
      has accepted the entry, so its `catch` does not appear here. */
  method Write(settings: InfluxSettings, docs: seq<Entry>, db: DbOutcome)
    returns (r: Result<WriteOutcome>, written: seq<InfluxPoint>)
    ensures ValidateBufferEntryArray(docs).Err? ==> r == Err(SchemaError) && written == []
    ensures ValidateBufferEntryArray(docs).Ok? && docs == [] ==>
      r == Ok(WriteOutcome(false, [], [])) && written == []
    ensures ValidateBufferEntryArray(docs).Ok? && docs != [] && ValidateEntries(docs).Fail? ==>
      r == Err(ValidateEntries(docs).error) && written == []
    ensures ValidateBufferEntryArray(docs).Ok? && docs != [] && ValidateEntries(docs) == Pass ==>
      && |written| == |docs|
      && (forall k :: 0 <= k < |docs| ==>
            written[k] == PointOf(docs[k]))
      && r == Ok(if db == Resolved then WriteOutcome(false, IdsOf(docs), [])
                 else WriteOutcome(true, [], IdsOf(docs)))
  {
    written := [];
    var validated := ValidateBufferEntryArray(docs);
    if validated.Err? {
      return Err(validated.error), [];
    }
    if |docs| <= 0 {
      return Ok(WriteOutcome(false, [], [])), [];
    }
    var points: seq<InfluxPoint> := [];
    var ids: seq<Prim> := [];
    var j := 0;
    while j < |docs|
      invariant 0 <= j <= |docs|
      invariant PointsUpTo(docs, j, points, ids)
    {
      var entry := docs[j];
      var check := ValidateEntry(Some(entry));
      if check.Err? {
        FirstRefusedDecides(docs, j, check.error);
        return Err(check.error), [];
      }
      PointsStep(docs, j, points, ids);
      points := points + [PointOf(entry)];
      ids := ids + [entry.id];
      j := j + 1;
    }
    assert ids == IdsOf(docs);
    if |points| <= 0 {
      return Ok(WriteOutcome(false, ids, [])), [];
    }
    written := points;
    if db == Resolved {
      r := Ok(WriteOutcome(false, ids, []));
    } else {
      r := Ok(WriteOutcome(true, [], ids));
    }
  }

  /** The first `j` entries were accepted, and `points` and `ids` hold their
      points and ids. */
  ghost predicate PointsUpTo(docs: seq<Entry>, j: nat, points: seq<InfluxPoint>, ids: seq<Prim>)
    requires j <= |docs|
  {
    && (forall k :: 0 <= k < j ==> ValidateEntry(Some(docs[k])).Ok?)
    && |points| == j && |ids| == j
    && (forall k :: 0 <= k < j ==> docs[k].outputConfig.Str? && points[k] == PointOf(docs[k]))
    && (forall k :: 0 <= k < j ==> ids[k] == docs[k].id)
  }

  lemma PointsStep(docs: seq<Entry>, j: nat, points: seq<InfluxPoint>, ids: seq<Prim>)
    requires j < |docs| && PointsUpTo(docs, j, points, ids)
    requires ValidateEntry(Some(docs[j])).Ok?
    ensures PointsUpTo(docs, j + 1, points + [PointOf(docs[j])], ids + [docs[j].id])
  {
  }
}
