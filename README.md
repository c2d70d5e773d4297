# node-connect: a verified model of the read pumps, the write pump and the writers

node-connect moves values between industrial data sources and sinks. Read
pumps read them, either from an OPC-UA server (polled on a schedule or
monitored for changes) or from an MQTT broker (subscribed topics). Each
value they read becomes a *point*. They hand the points to a *write pump*.
The write pump turns every point that has an address for its output into a
*buffer entry* and stores it in a durable buffer. On a cycle it drains a
batch from the buffer and hands it to its writer: InfluxDB, MQTT or OPC-UA.
It removes what the writer reports as written, and evicts the oldest
entries when the buffer grows past its bound.

This Dafny project models that core:

- the configuration checks of every constructor;
- the JavaScript value semantics the core relies on (`typeof`, truthiness,
  `trim`, `String`, `Number`);
- the entry and point schemas;
- the conversion of points to buffer entries and their numbering;
- the buffer as a store keyed by insertion order, with its invariant;
- the write cycle, with removal and eviction;
- the three writers' `Write` operations and their split of a batch into
  passed and failed ids;
- the OPC-UA reader's pollRate correction, polling schedule, poll filter
  and monitored-change handler;
- the MQTT reader's coercion of messages, its topic registry and its
  subscription series;
- the read pump's choice of reader.

Objects whose fields the source updates become classes: `WritePump`,
`WritePumpReporting`, `ReaderOpcua`, `ReaderMqtt` and the node objects
(`ReadNode`). Pure computations become functions with lemmas.

Several things the core reaches outside itself for become parameters of
the model:

- the writer a write pump calls is a function from a batch to what its
  callback receives;
- the OPC-UA session's replies, the MQTT broker's subscription answers and
  publish acknowledgements, and the InfluxDB promise are parameters;
- the clock (`now`) is a parameter;
- the compiled `calc` function (`eval`) is a parameter;
- number parsing (`parse`) and number printing (`numText`) are parameters;
- the BUFFER_LOCATION variable and the module directory are parameters.

The nedb store is a `map<nat, Entry>` from an insertion key to the entry.
The `_id` nedb gives the entry under key `k` is `Str(StoreId(k))`.

The files follow the source:

| file | models |
|---|---|
| `outcomes.dfy` | error kinds, `Outcome`, `Result`, `Option` |
| `js.dfy` | JavaScript values and operators |
| `utils.dfy` | utils/utils.js |
| `config.dfy` | the configuration sections |
| `points.dfy` | nodes, points, measurements, buffer entries |
| `validators.dfy` | data_validators.js |
| `basewriter.dfy` | writers/basewriter.js |
| `opcua_connect.dfy` | the constructor checks of opcua_connect.js |
| `mqttwriter.dfy` | writers/mqttwriter.js |
| `influxdbwriter.dfy` | writers/influxdbwriter.js |
| `opcuawriter.dfy` | writers/opcuawriter.js |
| `reporting.dfy` | writepump_reporting.js |
| `writepump.dfy` | writepump.js |
| `readers.dfy` | `ParseNodes` and `InitializeMeasurements`, shared by both readers |
| `readpump_opcua.dfy` | readers/readpump_opcua.js |
| `readpump_mqtt.dfy` | readers/readpump_mqtt.js |
| `readpump.dfy` | readpump.js |

## Model

| member | source | states |
|---|---|---|
| Js.TypeOf | readers/readpump_opcua.js:55 | `typeof` gives one of five type names, and gives "undefined" exactly for undefined |
| Js.Or | readers/readpump_opcua.js:159 | `a \|\| b` is `a` when `a` is truthy and `b` otherwise |
| Js.IfTruthy | writers/influxdbwriter.js:27-32 | an optional setting is copied exactly when it is truthy, and then unchanged |
| Js.TrimStart | utils/utils.js:71 | the result is a suffix of the input, the prefix dropped is all white space, and the result does not start with white space |
| Js.TrimEnd | utils/utils.js:71 | the result is a prefix of the input, the suffix dropped is all white space, and the result does not end with white space |
| Js.Trim | utils/utils.js:71 | the result is a slice of the input with only white space on either side of it, and it neither starts nor ends with white space |
| Js.TrimEmptyIffBlank | utils/utils.js:71 | `s.trim() === ""` holds exactly when every character of `s` is ECMAScript white space |
| Js.ToLowerAscii | readers/readpump_mqtt.js:56 | lower-casing keeps the length and maps exactly the capital ASCII letters to their lower case |
| Js.ToStr | writers/mqttwriter.js:184 | `String(s)` of a string is the string itself |
| Js.ToNumber | readers/readpump_mqtt.js:45 | `Number(n)` of a number is the number itself |
| Utils.SupportedDataTypesAreExactly | utils/utils.js:42-58 | the supported data types are exactly "number", "string" and "boolean" |
| Utils.ValidateConfigurationStringProperty | utils/utils.js:66-74 | passes exactly for a value that is not null or undefined and, when empty values are checked, is a non-blank string; nullish and blank values fail with a ConfigurationError |
| Utils.ValidateConfigurationProperty | utils/utils.js:77-81 | passes exactly when the value is neither null nor undefined, and otherwise fails with a ConfigurationError |
| Utils.StringPropertyExamples | utils/utils.js:66-74 | " test " is accepted; " " is refused unless empty values are allowed; "" is accepted when they are |
| Utils.GetOPCUAClientSubscriptionSettings | utils/utils.js:92-101 | configured options win; without them the defaults are a publishing interval of 0, a lifetime count of 100, a keep-alive count of 1000, no notification limit, publishing on and priority 0 |
| Utils.GetOPCUAClientSettings | utils/utils.js:104-116 | configured settings win; without them the session is kept alive, the endpoint need not exist, both timeouts are one hour, and retries are unlimited with delays from 1 to 10 seconds |
| Config.OrZero | readers/readpump_opcua.js:609-610 | `x \|\| 0` is the value when present and 0 when absent |
| Points.ReadNode.constructor | readers/readpump_opcua.js:642-651 | a new node has its configuration, and no last value or last status yet |
| Points.ConfigsOf | readers/readpump_opcua.js:636-659 | the configurations of the nodes, one per node, in order |
| Points.IdsOf | writers/influxdbwriter.js:85-106 | the `_id` of every entry of a batch, one per entry, in batch order |
| Validators.ValidateBufferEntry | data_validators.js:19-26 | accepts an entry exactly when it matches the `entry` schema with its `timed_value`, returns it unchanged, and otherwise fails with a schema error |
| Validators.ValidateBufferEntryArray | data_validators.js:52-66 | accepts an array exactly when every element matches the `entry` schema, and returns it unchanged |
| Validators.ValidatePointArray | data_validators.js:28-70 | accepts an array exactly when every element matches the `read_point` schema with its `node`, and returns it unchanged |
| BaseWriter.CheckWriterConfig | writers/basewriter.js:6-10 | a writer is built exactly when the output configuration is present; otherwise a ConfigurationError |
| BaseWriter.ValidateEntry | writers/basewriter.js:12-26 | accepts exactly an entry whose `output_config` is a non-blank string, returning true; a missing entry, a nullish address or a blank one is a ConfigurationError |
| BaseWriter.ValidateEntries | writers/basewriter.js:12-26 | a batch passes exactly when every entry does; otherwise its error is that of some entry that is the first refused |
| BaseWriter.FirstRefusedDecides | writers/basewriter.js:12-26 | the first refused entry decides the error of the batch |
| BaseWriter.ValidateEntryExamples | writers/basewriter.js:21-23 | an address " test " is accepted and " " is refused |
| BaseWriter.Select | writers/mqttwriter.js:131-139 | selecting the ids of one flag gives at most as many ids as there are, each one of the given ids |
| BaseWriter.SelectPartition | writers/mqttwriter.js:131-139 | every id goes to exactly one of the two sides, as a multiset and by count |
| BaseWriter.SelectUniform | writers/opcuawriter.js:98-106 | with every flag equal, one side holds every id, in order, and the other none |
| BaseWriter.SelectMembers | writers/mqttwriter.js:131-139 | an id is on a side exactly when it sits at an index whose flag is that side |
| BaseWriter.SelectEmptyIff | writers/mqttwriter.js:143-146 | a side is empty exactly when no flag selects it |
| OpcuaConnect.CheckConnectConfig | opcua_connect.js:19-21 | passes exactly when the configuration is present and its url a non-blank string |
| MqttWriter.CheckMqttConfig | writers/mqttwriter.js:17-21 | passes exactly when the configuration is present, its url a non-blank string and its topic prefix not nullish; the url errors are ConfigurationErrors |
| MqttWriter.NewMqttWriterAsWritten | writers/mqttwriter.js:17-50 | as written, the constructor succeeds exactly when the checks pass and none of cert, ca and key is set |
| MqttWriter.NewMqttWriter | writers/mqttwriter.js:17-50 | as intended, the constructor succeeds exactly when the checks pass; it keeps the prefix, the trimmed url, the credentials and each truthy certificate setting |
| MqttWriter.AsWrittenDiffersOnlyOnCertificates | writers/mqttwriter.js:33-47 | the constructors agree without certificate settings; with one, the written one throws a TypeError where the intended one succeeds |
| MqttWriter.CertificateConfigExample | writers/mqttwriter.js:34-37 | a configuration with a certificate path: the written constructor throws, and the intended one keeps the path |
| MqttWriter.TopicOf | writers/mqttwriter.js:168 | the topic is the prefix as a string followed by the entry's address |
| MqttWriter.PublishDecision | writers/mqttwriter.js:162-196 | a message is published exactly when its topic is not blank and holds neither `#` nor `+`; its payload is the value as a string |
| MqttWriter.Publications | writers/mqttwriter.js:119-148 | a batch publishes at most one message per entry |
| MqttWriter.Succeeded | writers/mqttwriter.js:151-157 | an entry succeeds exactly when its topic is accepted and its publish callback reports no error |
| MqttWriter.PublishMessage | writers/mqttwriter.js:162-196 | publishes what the decision says, and the result carries the entry's id and succeeds exactly when published and acknowledged |
| MqttWriter.ResultsOf | writers/mqttwriter.js:119-148 | one result per entry |
| MqttWriter.ResultsOfMatches | writers/mqttwriter.js:119-157 | the results carry the batch's ids in order, and their success flags are those of `Succeeded` |
| MqttWriter.PublishAll | writers/mqttwriter.js:119-148 | the batch passes exactly when every entry is accepted; then every message is published and every result collected; otherwise only the messages before the first refused entry are published |
| MqttWriter.PublishNext | writers/mqttwriter.js:119-148 | one entry: refused, which ends the batch with its error and publishes nothing more, or published with its result appended |
| MqttWriter.PublishRefused | writers/mqttwriter.js:166 | a refused entry ends the batch with its error, after the messages of the entries before it |
| MqttWriter.PublishedEverything | writers/mqttwriter.js:119-148 | a batch handled to its end passes, with every message and result |
| MqttWriter.ResultIds | writers/mqttwriter.js:131-139 | the entry id of every result, in order |
| MqttWriter.ResultFlags | writers/mqttwriter.js:131-139 | the success flag of every result, in order |
| MqttWriter.SplitResults | writers/mqttwriter.js:131-146 | successful results pass and the others fail, both in result order; the error is set exactly when some result failed |
| MqttWriter.Write | writers/mqttwriter.js:103-149 | a batch that does not decode is a schema error; without a connected client every id fails; a refused entry throws after the earlier messages; otherwise the ids split by `Succeeded` and the error is set exactly when one failed |
| MqttWriter.WriteIsPartition | writers/mqttwriter.js:131-146 | every id of a batch is passed or failed exactly once, and the error is set exactly when some entry did not succeed |
| MqttWriter.TopicExamples | writers/mqttwriter.js:170-180 | wildcard topics and blank topics are refused, and "a/" with "b" publishes to "a/b" |
| InfluxDbWriter.NewInfluxDbWriter | writers/influxdbwriter.js:15-63 | succeeds exactly when the configuration is present and its host and database are non-blank strings; a nullish or blank host or database is a ConfigurationError, a non-string one a TypeError, the host checked first; keeps host, database, username and password, writes in milliseconds, and copies port, protocol, RequestOptions and retention policy unchanged exactly when truthy |
| InfluxDbWriter.PointOf | writers/influxdbwriter.js:91-98 | the point has the entry's measurement name, tags and time, and one field named after the address holding the value |
| InfluxDbWriter.Write | writers/influxdbwriter.js:73-128 | a schema error or a refused entry writes nothing; an empty batch passes; otherwise one point per entry is written, and every id passes when the promise resolves or fails when it rejects |
| InfluxDbWriter.PointsStep | writers/influxdbwriter.js:85-106 | one more accepted entry adds its point and its id |
| OpcuaWriter.GetOpcDataType | writers/opcuawriter.js:13-26 | numbers map to Double, strings to String and booleans to Boolean; nothing else has a type |
| OpcuaWriter.NewOpcuaWriter | writers/opcuawriter.js:29-32 | succeeds exactly when the configuration is present and its url passes the OpcuaConnect check |
| OpcuaWriter.RequestOf | writers/opcuawriter.js:67-78 | the write request targets the entry's address with its value and the OPC-UA type of that value |
| OpcuaWriter.AlignedIds | writers/opcuawriter.js:98-106 | status code `k` belongs to id `k`, or to undefined past the end |
| OpcuaWriter.GoodCodes | writers/opcuawriter.js:98-106 | a status code is Good exactly when its value is 0 |
| OpcuaWriter.SplitByStatus | writers/opcuawriter.js:98-106 | a bad code beyond the requests throws a TypeError; otherwise the id of each Good code passes and the others fail |
| OpcuaWriter.BuildRequests | writers/opcuawriter.js:53-79 | the batch passes exactly when every entry is accepted, and then there is one request and one id per entry, in order |
| OpcuaWriter.Write | writers/opcuawriter.js:48-116 | a schema error or a refused entry sends nothing; an empty batch passes; with no session, or a write that throws or errs, every id fails; otherwise the ids split by their status codes |
| OpcuaWriter.StatusSplitIsPartition | writers/opcuawriter.js:98-106 | with one status code per request every id is passed or failed exactly once, and an all-Good answer passes the whole batch |
| Reporting.WritePumpReporting.constructor | writepump_reporting.js:6-15 | both counters start at 0 and both timestamps at now |
| Reporting.WritePumpReporting.Reset | writepump_reporting.js:17-23 | both counters go back to 0 and both timestamps to now |
| Reporting.WritePumpReporting.RegisterWriteCycle | writepump_reporting.js:25-27 | one more write cycle, and nothing else changes |
| Reporting.WritePumpReporting.RegisterWrites | writepump_reporting.js:29-31 | `n` more items written, and nothing else changes |
| Reporting.WritePumpReporting.LogWriteReport | writepump_reporting.js:33-48 | reports exactly when the interval has passed since the last report, and then records the report time; the counters never change |
| WritePump.DbFileName | writepump.js:30-36 | the file name ends in ".db" and starts with the output's name, and a name already ending in ".db" is kept |
| WritePump.DbFileNameIdempotent | writepump.js:30-36 | naming the file twice gives the same name |
| WritePump.BufferDir | writepump.js:39 | a set BUFFER_LOCATION wins, and otherwise the module's directory is used |
| WritePump.GetDbPath | writepump.js:25-41 | a nullish name is a ConfigurationError and a name that is not a string a TypeError; otherwise the path is the file name in the buffer directory |
| WritePump.DbPathExamples | writepump.js:25-41 | "plant" becomes "/srv/plant.db", "plant.db" under BUFFER_LOCATION "/data" becomes "/data/plant.db", and a null name is refused |
| WritePump.SettingOr | writepump.js:141-143 | a set non-zero number wins, and otherwise the default is used |
| WritePump.ReportIntervalMs | writepump.js:139 | a set non-zero number of seconds gives that many thousand milliseconds, and otherwise one minute; the result is positive |
| WritePump.ConfigureWriter | writepump.js:161-188 | each output type builds its own writer, which succeeds exactly when that writer's constructor does (for MQTT the intended constructor of the Findings row); an unknown type is a ConfigurationError |
| WritePump.NewPumpSettings | writepump.js:108-159 | the configuration must be present, with a bufferMaxSize and a defined name that is a string unless the store is in memory, and its writer must build (for MQTT by the intended constructor of the Findings row); the settings then take the configured values or their defaults, all positive |
| WritePump.GetOutputConfig | writepump.js:61-81 | the address is null or one of the node's three output addresses, never undefined |
| WritePump.OutputConfigByType | writepump.js:61-81 | each output type reads its own address when it is defined, and an unknown type gives null |
| WritePump.TagsCopy | writepump.js:98 | the entry's tags are a copy of the measurement's, and empty without them |
| WritePump.EntryOf | writepump.js:92-101 | the entry has no `_id`, and carries the measurement's name, the point's time and value, the copied tags, the address and the counter |
| WritePump.ConvertPointToEntry | writepump.js:83-104 | a point without an address is skipped; otherwise its entry is returned, and a failure is a schema error |
| WritePump.ConvertChecksEntry | writepump.js:103 | an addressed point is converted exactly when its entry matches the entry schema |
| WritePump.ConvertDecodedPoint | writepump.js:83-104 | for a decoded point the conversion fails exactly when the point is addressed and the measurement's name is not a string |
| WritePump.AddPoints | writepump.js:320-331 | the counter never moves back |
| WritePump.AddressedEntries | writepump.js:320-331 | at most one entry per point |
| WritePump.AddPointsCounter | writepump.js:320-322 | a call that passes moves the counter by the number of points; one that throws stops it at the point that threw, with a schema error |
| WritePump.AddPointsWithStringName | writepump.js:316-332 | with a string measurement name every decoded point is handled, and exactly the addressed ones are stored, each numbered by its position |
| WritePump.AddPointsWithBadName | writepump.js:316-332 | with a measurement name that is not a string nothing is stored, and the call throws exactly when some point is addressed |
| WritePump.AddPointsNumbering | writepump.js:320-323 | the stored entries have no `_id`, decode, and are numbered in strictly increasing order within the counter's range |
| WritePump.AddPointsFailsAt | writepump.js:320-331 | a point that throws after a passing prefix ends the call with its error, the prefix's entries and the counter at that point |
| WritePump.AddPointsStopsAtFailure | writepump.js:320-331 | nothing after the point that threw changes the result |
| WritePump.StoreId | writepump.js:324 | the generated `_id` of key `k` has length `k`, so distinct keys have distinct ids |
| WritePump.Stored | writepump.js:200 | an entry drained from the store carries the `_id` of its key |
| WritePump.InsertedAt | writepump.js:323-330 | after insertion the store holds the old keys and the new ones, the new entries in order under the new keys, and the old entries elsewhere |
| WritePump.InsertKeepsValid | writepump.js:320-331 | inserting entries numbered above everything stored, in increasing order, under fresh keys keeps numbering increasing with insertion order |
| WritePump.RemoveIds | writepump.js:228 | `remove({_id: {$in: ids}})` keeps exactly the entries whose id is not listed, unchanged |
| WritePump.RemoveIdsTwice | writepump.js:226-247 | removing two id lists one after the other is removing both at once |
| WritePump.RemoveNothing | writepump.js:226 | removing no ids leaves the store as it was |
| WritePump.RemovalKeepsValid | writepump.js:226-247 | taking entries out keeps the store's invariant |
| WritePump.RemoveDrainedBatch | writepump.js:226-247 | removing ids of a drained batch touches nothing outside the batch, and removing all of them removes exactly the batch |
| WritePump.RemovedIds | writepump.js:226-247 | a cycle removes the passed ids, and the failed ones as well when there are some and failures are dropped |
| WritePump.Processed | writepump.js:214-246 | the number processed is the number of ids removed |
| WritePump.NextWait | writepump.js:248-268 | the next cycle starts at once exactly when at least `writeLimit` entries were processed, and otherwise after `writeInterval` |
| WritePump.ProcessedForPartition | writepump.js:215-268 | when the writer splits the batch, dropping failures processes the whole batch, nothing processes more, and the pump skips its pause only after a full batch |
| WritePump.OldestEvictionIsUnique | writepump.js:334-369 | only one set of entries is the newest `bufferMaxSize`, so the eviction is determined |
| WritePump.NoEviction | writepump.js:345-349 | a store within its bound keeps every entry |
| WritePump.SortedKeysCount | writepump.js:339 | the sorted list of keys is as long as the store |
| WritePump.EvictOldest | writepump.js:345-366 | deleting the ids of the first `length - max` sorted entries evicts the oldest entries down to `max` |
| WritePump.WritePump.constructor | writepump.js:121-147 | an empty store, the counter at 0 and a freshly reset report |
| WritePump.WritePump.GetNumberOfPointsInBuffer | writepump.js:377-382 | the number of entries in the store |
| WritePump.WritePump.AddPointsToBuffer | writepump.js:316-332 | points that do not decode change nothing; otherwise the counter, the keys and the store become what `AddPoints` gives, inserted in order, and the invariant holds |
| WritePump.WritePump.InsertPoints | writepump.js:320-331 | the loop over decoded points ends in the state `AddPoints` describes |
| WritePump.WritePump.AddPoint | writepump.js:321-330 | the counter moves by one, and the point's entry, if any, goes in under the next key |
| WritePump.WritePump.Drain | writepump.js:200 | up to `writeLimit` distinct entries of the store, with their ids; nothing changes |
| WritePump.WritePump.Reconcile | writepump.js:226-247 | removes exactly the ids `RemovedIds` names and keeps the invariant |
| WritePump.WritePump.SortedByI | writepump.js:339 | the store's keys in ascending order, which is ascending `i` |
| WritePump.WritePump.CheckBufferLimit | writepump.js:334-369 | evicts the oldest entries beyond `bufferMaxSize`, keeps the rest unchanged, and returns how many went |
| WritePump.WritePump.FinishCycle | writepump.js:214-285 | counts and reports written items unless the writer erred, removes what was processed, evicts the oldest beyond the bound, and waits as `NextWait` says |
| WritePump.WritePump.ExecWriteCycle | writepump.js:193-286 | drains a batch and counts a cycle when it is not empty; a writer that throws leaves the store as it was; otherwise the cycle finishes as `FinishCycle` says |
| Readers.ParseLinksAccepts | readers/readpump_opcua.js:635-660 | parsing succeeds exactly when every link's source field is a non-blank string, and then gives one node per link, in order; a failure is the error of some link |
| Readers.ParseNodes | readers/readpump_mqtt.js:307-335 | one fresh node per link, distinct, with no last value yet, configured as parsed; or the parse's error |
| Readers.LinksStopAtFailure | readers/readpump_opcua.js:639-641 | a parse that fails on some links fails the same way whatever follows |
| Readers.PlanOf | readers/readpump_opcua.js:544-558 | initialisation adds at most one measurement per configured one; the k-th added is the accepted attempt at index k, and a plan that passes adds one per configured measurement |
| Readers.PlanOfPasses | readers/readpump_opcua.js:544-558 | initialisation passes exactly when every measurement is accepted, and then adds each of them, in order |
| Readers.PlanStopsAtFailure | readers/readpump_opcua.js:544-558 | initialisation that fails on some measurements fails the same way whatever follows |
| ReadPumpOpcua.DataValueToPoint | readers/readpump_opcua.js:27-49 | the point keeps its node and status; a missing value is 0; `calc` is applied when the node has one; a custom timestamp wins over the source timestamp, which wins over the clock |
| ReadPumpOpcua.PointTypeChecks | readers/readpump_opcua.js:54-68 | a valid point has a number, string or boolean value, and a valid point of the right type has the value its node's data type names |
| ReadPumpOpcua.PointIsWithinDeadband | readers/readpump_opcua.js:73-128 | values of different types are never within; numbers are within a positive absolute or relative deadband; equal booleans are within a positive absolute one; strings never are |
| ReadPumpOpcua.DeadbandNeverSuppressesAsWired | readers/readpump_opcua.js:78-79 | read from the node, which has no deadband settings, the deadband never suppresses a point |
| ReadPumpOpcua.DeadbandExamples | readers/readpump_opcua.js:106-118 | 10.5 after 10 is within an absolute deadband of 2 or a relative one of 0.1, 13 is not, a repeated boolean is, and strings never are |
| ReadPumpOpcua.DefaultFor | readers/readpump_opcua.js:473-487 | a default exists exactly for the three data types, and is of the type named |
| ReadPumpOpcua.FilterPoint | readers/readpump_opcua.js:468-515 | a point with a status other than Good is dropped and recorded; a Good point is recorded exactly when kept, is kept typed, keeps its value when already typed, and takes its type's default otherwise |
| ReadPumpOpcua.GoodPointIsKeptIffTyped | readers/readpump_opcua.js:470-505 | a Good point is kept exactly when it is of its node's type or that type has a default |
| ReadPumpOpcua.KeptPoints | readers/readpump_opcua.js:468-515 | the filter keeps at most every point, and every point it keeps is Good, valid and of its node's type |
| ReadPumpOpcua.KeptPointsAreGood | readers/readpump_opcua.js:468-517 | every point handed to the buffer is Good, of a supported type, of its node's type, and from one of the read nodes |
| ReadPumpOpcua.LastValues | readers/readpump_opcua.js:76 | the last value of each point's node |
| ReadPumpOpcua.LastStatuses | readers/readpump_opcua.js:469 | the last status of each point's node |
| ReadPumpOpcua.UpdatePointLastData | readers/readpump_opcua.js:419-422 | the node records the point's value and status |
| ReadPumpOpcua.FilterOne | readers/readpump_opcua.js:468-515 | one filter call decides as `FilterPoint` does and leaves the node as it says |
| ReadPumpOpcua.FilterResults | readers/readpump_opcua.js:468-515 | the kept points are those `KeptPoints` gives for the last values before the filter, and each node records its point exactly when the filter does |
| ReadPumpOpcua.Round | readers/readpump_opcua.js:583 | `Math.round` lies within half of its input |
| ReadPumpOpcua.CheckPollRateAsWritten | readers/readpump_opcua.js:564-576 | as written, a rate passes exactly when present, at most 60 and not 0, so negative rates pass |
| ReadPumpOpcua.CheckPollRate | readers/readpump_opcua.js:564-576 | as intended, a rate passes exactly when present, positive and at most 60; every rate it accepts the written check accepts |
| ReadPumpOpcua.NextDivisorOf60 | readers/readpump_opcua.js:584-587 | the smallest divisor of 60 not below the start |
| ReadPumpOpcua.PrevMultipleOf60 | readers/readpump_opcua.js:592-595 | the largest multiple of 60 not above the start |
| ReadPumpOpcua.CorrectedPollRate | readers/readpump_opcua.js:578-597 | a corrected rate is positive |
| ReadPumpOpcua.RaiseToDivisor | readers/readpump_opcua.js:583-587 | the loop ends at the next divisor of 60, and corrects exactly when the rounded rate did not divide 60 |
| ReadPumpOpcua.LowerToMultiple | readers/readpump_opcua.js:591-595 | the loop ends at the previous multiple of 60, and corrects exactly when the interval was not one |
| ReadPumpOpcua.CorrectPollRate | readers/readpump_opcua.js:578-601 | the correction gives `CorrectedPollRate` and sets the flag exactly when a loop changed the rate |
| ReadPumpOpcua.CorrectedIntervalIsWhole | readers/readpump_opcua.js:578-597 | a corrected rate polls at a whole number of seconds that divides 60 or is a whole number of minutes |
| ReadPumpOpcua.CorrectionExamples | readers/readpump_opcua.js:578-597 | 7 becomes 10, 12 stays, 0.7 becomes 1, and 0.5 stays |
| ReadPumpOpcua.SecondsRuleIsUnique | readers/readpump_opcua.js:369-377 | an interval has exactly one rule of seconds |
| ReadPumpOpcua.SecondsOf | readers/readpump_opcua.js:369-377 | the rule holds 0, the interval, twice the interval, and so on below 60 |
| ReadPumpOpcua.SlowRatePollsEveryMinute | readers/readpump_opcua.js:369-377 | a measurement polled every two minutes gets the rule of second 0, so its job runs every minute |
| ReadPumpOpcua.NegativeRateNeverEndsAsWritten | readers/readpump_opcua.js:564-597 | rate -1 passes the written checks but not the intended ones, gives an interval of -60 seconds, and the seconds loop never reaches 60 |
| ReadPumpOpcua.ValidateMeasurement | readers/readpump_opcua.js:523-536 | passes exactly for a present measurement with a non-blank string name, a dataType, and a collectionType of "polled" or "monitored"; a name that is not a string is the only TypeError |
| ReadPumpOpcua.PolledSpec | readers/readpump_opcua.js:563-614 | a polled measurement is added exactly when its rate passes and its nodes parse, with the corrected rate, the parsed nodes and deadbands defaulting to 0 |
| ReadPumpOpcua.MonitoredSpec | readers/readpump_opcua.js:616-632 | a monitored measurement is added exactly when it has a monitorResolution and its nodes parse, with that resolution and the parsed nodes |
| ReadPumpOpcua.AddSpec | readers/readpump_opcua.js:544-558 | a measurement is validated, then added by its collection type, keeping its name, data type and tags |
| ReadPumpOpcua.AcceptedPolledIsPollable | readers/readpump_opcua.js:563-614 | every polled measurement the reader accepts has a whole-second interval |
| ReadPumpOpcua.Attempts | readers/readpump_opcua.js:544-558 | what each measurement gives on its own, in order |
| ReadPumpOpcua.InitPlanPasses | readers/readpump_opcua.js:538-561 | initialisation passes exactly when every measurement is accepted, and then adds each of them, in order |
| ReadPumpOpcua.OfKind | readers/readpump_opcua.js:548-557 | the measurements of one collection kind, each one of the plan's |
| ReadPumpOpcua.CheckReaderConfig | readers/readpump_opcua.js:133-150 | passes exactly when the input is present with a non-blank url, the measurements and the write pump are present, and the type is exactly "opcua" |
| ReadPumpOpcua.ReaderConfigExamples | readers/readpump_opcua.js:133-150 | an input of type "opcua" is accepted, "OPCUA" is refused, and missing measurements are refused |
| ReadPumpOpcua.NewReaderSettings | readers/readpump_opcua.js:133-171 | a reader is built exactly when the checks pass, keeps the input and waits `failoverTimeout \|\| 5` seconds, which is truthy |
| ReadPumpOpcua.KeyOf | readers/readpump_opcua.js:365-366 | a pollable measurement's container key is a whole number of seconds, at least 1 |
| ReadPumpOpcua.Grouped | readers/readpump_opcua.js:391-401 | the measurements of one container, at most all of them, each pollable and with that container's key |
| ReadPumpOpcua.MonitoredAgreesWithPolling | readers/readpump_opcua.js:326-345 | a monitored change is buffered exactly when polling would keep the same point unchanged |
| ReadPumpOpcua.ReadResults | readers/readpump_opcua.js:232-242 | one point per node, each built from its node's data value |
| ReadPumpOpcua.ReaderOpcua.constructor | readers/readpump_opcua.js:152-159 | no measurement, no poller, no container, not initialised |
| ReadPumpOpcua.ReaderOpcua.InitReader | readers/readpump_opcua.js:173-177 | the polling callback flag starts unset, and nothing else changes |
| ReadPumpOpcua.ReaderOpcua.PollingCallback | readers/readpump_opcua.js:189-211 | an error with pollers running clears the pollers and containers; the outer callback gets the error only the first time |
| ReadPumpOpcua.ReaderOpcua.SortMeasurementPollers | readers/readpump_opcua.js:361-402 | the measurement joins the container of its key, created with that key's rule when missing, and every other container is unchanged |
| ReadPumpOpcua.ReaderOpcua.StartOPCPolling | readers/readpump_opcua.js:424-446 | without polled measurements nothing starts; otherwise each is sorted in, in order, and one job is scheduled per container |
| ReadPumpOpcua.ReaderOpcua.SortAll | readers/readpump_opcua.js:435-437 | every polled measurement is sorted in, in order |
| ReadPumpOpcua.ReaderOpcua.SchedulePollers | readers/readpump_opcua.js:439-444 | exactly one new job per container |
| ReadPumpOpcua.ReaderOpcua.PollMeasurement | readers/readpump_opcua.js:455-517 | a failed read gives nothing and changes no node; otherwise the batch is what the filter keeps, all Good, typed and from the measurement's nodes, and each node records its point as the filter says |
| ReadPumpOpcua.ReaderOpcua.PollJob | readers/readpump_opcua.js:448-521 | an unusable session reports an error and reads nothing; otherwise each batch is non-empty, from a measurement of the container, and holds only Good typed points of its nodes |
| ReadPumpOpcua.ReaderOpcua.OnMonitoredChange | readers/readpump_opcua.js:326-345 | the point is buffered exactly when Good, valid and typed, and the node records it in every case |
| ReadPumpOpcua.ReaderOpcua.AddPolled | readers/readpump_opcua.js:563-614 | adds exactly the measurement `PolledSpec` describes, or fails with its error and adds nothing |
| ReadPumpOpcua.ReaderOpcua.AddMonitored | readers/readpump_opcua.js:616-632 | adds exactly the measurement `MonitoredSpec` describes, or fails with its error and adds nothing |
| ReadPumpOpcua.ReaderOpcua.AddMeasurement | readers/readpump_opcua.js:544-557 | adds the measurement to the list of its kind exactly when `AddSpec` accepts it, and otherwise changes neither list |
| ReadPumpOpcua.ReaderOpcua.InitializeMeasurements | readers/readpump_opcua.js:538-561 | once done it does nothing; otherwise it adds the planned measurements by kind until one throws, and is done exactly when it passes |
| ReadPumpOpcua.ReaderOpcua.AddAll | readers/readpump_opcua.js:544-558 | the loop ends with the plan's outcome, each list extended by the plan's measurements of its kind |
| ReadPumpOpcua.ReaderOpcua.AddNext | readers/readpump_opcua.js:544-558 | one more measurement either joins the list of its kind or ends the loop with the plan's outcome |
| ReadPumpOpcua.PickKey | readers/readpump_opcua.js:439 | some key of a non-empty set of containers |
| ReadPumpMqtt.DataValueToPoint | readers/readpump_mqtt.js:20-36 | the point keeps its node and has no status; `calc` is applied when the node has one; a truthy custom timestamp wins over the clock |
| ReadPumpMqtt.Coerce | readers/readpump_mqtt.js:41-75 | a number must convert with `Number`, a boolean must read "true" or "false" in any case, anything converts to a string, other types fail; the result has the type named |
| ReadPumpMqtt.CoerceIsIdempotent | readers/readpump_mqtt.js:41-75 | a coerced value coerces to itself |
| ReadPumpMqtt.CoerceBooleanWord | readers/readpump_mqtt.js:55-62 | a word whose lower case is "true" or "false" is that boolean |
| ReadPumpMqtt.CoerceTrueExample | readers/readpump_mqtt.js:55-62 | "TRUE" is true |
| ReadPumpMqtt.CoerceFalseExample | readers/readpump_mqtt.js:55-62 | "False" is false |
| ReadPumpMqtt.CoerceYesExample | readers/readpump_mqtt.js:55-62 | "yes" is not a boolean |
| ReadPumpMqtt.CoerceOtherExamples | readers/readpump_mqtt.js:63-70 | true as a string is "true", and "integer" is not a supported type |
| ReadPumpMqtt.PointMatchTypeAndSet | readers/readpump_mqtt.js:41-75 | matches exactly when the value coerces, then holds the coerced value of the node's type, and otherwise leaves the point as it was |
| ReadPumpMqtt.RegisterTopic | readers/readpump_mqtt.js:177-203 | a topic registers exactly when granted with a QoS other than 128, and otherwise fails with a subscription error |
| ReadPumpMqtt.SubscribeAllPasses | readers/readpump_mqtt.js:219 | the series passes exactly when every topic registers, and otherwise fails with the error of a topic that did not |
| ReadPumpMqtt.NodeEntries | readers/readpump_mqtt.js:212-216 | one topic per node of the measurement, in order, each the prefix followed by the node's topic |
| ReadPumpMqtt.EntriesAreSound | readers/readpump_mqtt.js:211-217 | each entry names its node's topic, and its node belongs to its measurement, one of the reader's |
| ReadPumpMqtt.EntriesAreComplete | readers/readpump_mqtt.js:211-217 | every node of every measurement has its entry |
| ReadPumpMqtt.RegistryOfEntries | readers/readpump_mqtt.js:214 | the registry holds a topic exactly when some entry names it, and maps it to one of that topic's entries |
| ReadPumpMqtt.RegistryIsExact | readers/readpump_mqtt.js:205-217 | the registry has the topic of every node, and a topic reaches a node with that topic and the node's own measurement |
| ReadPumpMqtt.TopicsOf | readers/readpump_mqtt.js:215 | the topic of each entry, in order |
| ReadPumpMqtt.NodeTopicStep | readers/readpump_mqtt.js:212-216 | one more node extends the entries, the registry and the topic list together |
| ReadPumpMqtt.CheckReaderConfig | readers/readpump_mqtt.js:79-98 | passes exactly when the input, measurements and write pump are present, the type is exactly "mqtt" and a topic prefix is given; failures are ConfigurationErrors |
| ReadPumpMqtt.NewReaderSettings | readers/readpump_mqtt.js:79-141 | a reader is built exactly when the checks pass, keeps the input and waits `failoverTimeout \|\| 5` seconds, which is truthy |
| ReadPumpMqtt.ValidateMeasurement | readers/readpump_mqtt.js:279-283 | passes exactly for a present measurement with a non-blank string name and a dataType; a name that is not a string is the only TypeError |
| ReadPumpMqtt.AddSpec | readers/readpump_mqtt.js:291-304 | a validated measurement is added exactly when its nodes parse, subscribed, with its name, type, tags, nodes and deadbands defaulting to 0 |
| ReadPumpMqtt.AddSpecNameExamples | readers/readpump_mqtt.js:279-283 | a null, missing or blank name and a null dataType are each a ConfigurationError |
| ReadPumpMqtt.AddSpecLinkExamples | readers/readpump_mqtt.js:312-332 | a link whose `in_mqtt` is missing, null or blank is a ConfigurationError |
| ReadPumpMqtt.BadLinkRefused | readers/readpump_mqtt.js:313 | a single link without a usable `in_mqtt` fails the parse with a ConfigurationError |
| ReadPumpMqtt.NewMeasurement | readers/readpump_mqtt.js:293-303 | the stored measurement matches `AddSpec` with distinct nodes, or the call fails with its error |
| ReadPumpMqtt.Attempts | readers/readpump_mqtt.js:291-304 | what each measurement gives on its own, in order |
| ReadPumpMqtt.InitPlanPasses | readers/readpump_mqtt.js:285-305 | initialisation passes exactly when every measurement is accepted, and then adds each of them, in order |
| ReadPumpMqtt.ReaderMqtt.constructor | readers/readpump_mqtt.js:127-132 | no measurement, no registered topic, not initialised |
| ReadPumpMqtt.ReaderMqtt.UpdatePointLastData | readers/readpump_mqtt.js:275-277 | the node records the point's value and keeps its status |
| ReadPumpMqtt.ReaderMqtt.InitializeMeasurements | readers/readpump_mqtt.js:285-305 | the flag is set first, so later calls do nothing; a first call adds the planned measurements until one throws |
| ReadPumpMqtt.ReaderMqtt.AddAll | readers/readpump_mqtt.js:291-304 | the loop ends with the plan's outcome, the list extended by the plan's measurements |
| ReadPumpMqtt.ReaderMqtt.StartMonitoring | readers/readpump_mqtt.js:205-227 | the series over every node's topic decides the outcome; the reader keeps the registry when it passes and an empty one otherwise |
| ReadPumpMqtt.ReaderMqtt.BuildRegistry | readers/readpump_mqtt.js:211-217 | the two loops build the registry and the topic list of the entries |
| ReadPumpMqtt.ReaderMqtt.OnMessage | readers/readpump_mqtt.js:231-248 | a message on an unregistered topic that is an `Object.prototype` name (such as "constructor") throws a TypeError, and on any other unregistered topic it is ignored; otherwise it is buffered as a batch of one exactly when it coerces, and the node records the value in every case |
| ReadPumpMqtt.AddNodeTopics | readers/readpump_mqtt.js:212-216 | the inner loop adds every node's topic to the registry and the list, in order |
| ReadPumpMqtt.SubscribeSeries | readers/readpump_mqtt.js:219-226 | the series of subscriptions ends as `SubscribeAll` says |
| ReadPumpMqtt.SubscribeStopsAtFailure | readers/readpump_mqtt.js:219 | a series that fails on some topics fails the same way whatever follows |
| ReadPumpMqtt.BufferedMessageIsTyped | readers/readpump_mqtt.js:241-243 | a buffered message is of its node's supported data type, stamped with the clock, for its node |
| ReadPump.NewReader | readpump.js:32-41 | a type other than "opcua" and "mqtt" is a ConfigurationError, and each type builds its own reader |
| ReadPump.NewReadPump | readpump.js:16-44 | a missing input, measurements or write pump is a ConfigurationError; a pump takes its input's name |
| ReadPump.NewReadPumpAccepts | readpump.js:16-44 | a pump is built exactly when its input names a reader whose own checks pass, and that reader is set up from the same input |
| ReadPump.UnknownTypeRefused | readpump.js:39-40 | "OPCUA", "influxdb" and null types are refused |
| ReadPump.ReaderErrorIsThePumps | readpump.js:33-34 | an OPC-UA input whose url is not a string makes the pump fail, with the error of the reader's own check |

## Left out

- Timers and scheduling are not modelled: `setTimeout`, `async.forever`, the `node-schedule` jobs (each poller is recorded by its container's key) and the start delays. Neither are `WritePump.Run`, `ReadPump.Run` and the readers' `Run` loops, which only restart work forever.
- Connections are not modelled: OPC-UA and MQTT connection and disconnection, `Connect` of the writers, the `close`, `error`, `offline` and `reconnect` handlers, and the monitored-item subscription setup. Their results are parameters.
- nedb persistence, `loadDatabase`, `compactDatafile` and the callbacks of `insert` and `remove` are not modelled; the store is a map that changes at once.
- Logging, Sentry messages and `printNumberOfItemsInBuffer` are left out; they only report.
- Reading certificate files (`fs.readFileSync`) is left out; the settings are kept as paths.
- `Readers.ParseLinksAccepts`: compiling the `calc` text (`LooseParse`) is replaced by the parameter `eval`. In the source, a `calc` that does not compile, or that throws when called with 0, makes ParseNodes throw; here every `calc` is accepted.
- The averages logged by `LogWriteReport` are left out: they are floating point and only printed.
- NaN and the infinities are not modelled. Numbers are unbounded reals. The output section's numeric settings (`NumSetting`: bufferMaxSize, writeMaxPoints, writeInterval, reportIntervalSeconds) are non-negative whole numbers, null or absent; a negative, fractional or string value there is not represented.
- The measurement numbers `pollRate`, `deadbandAbsolute` and `deadbandRelative` are reals of either sign, or absent. A value of another type, such as a string or (from a caller not going through TOML, which has no null) `null`, is not represented. The source lets a null pollRate through its checks, since `null > 60` and `null === 0` are both false, and then never leaves the `< 1` loop, because `Math.round(60 / null)` is Infinity and `Infinity % 60` is NaN. The model cannot show this, since it has no infinities.
- Number parsing and printing are parameters (`parse`, `numText`), since the core never depends on the digits.
- An MQTT message that is a `Buffer` is modelled as the value it converts to.
- `ReadPump.NewReadPump`: the measurements and the write pump are passed as whether they are present; the reader does not use their contents at construction.
- `ReadPumpOpcua.PointIsWithinDeadband`: the function reads the deadband settings from the node, which never carries them. So the filter is modelled with both settings absent (`DeadbandNeverSuppressesAsWired`); the function itself is modelled on its arguments.
- `ReadPumpOpcua.ReaderOpcua.SortMeasurementPollers`: the branch for intervals above 60 seconds (`rule.minute`) is never taken, since `interval >= 1 <= 60` is always true.
- `ReadPumpOpcua.ReaderOpcua.AddMeasurement`: the `default` branch of the collection-type switch cannot be reached after validation.
- `ReadPumpOpcua.ReaderOpcua.StartOPCPolling`: jobs are scheduled in an order the model leaves open, because `Object.values` order on numeric-string keys is not the insertion order.
- `ReadPumpOpcua.ReaderOpcua.PollJob`: states what each batch holds, not the exact sequence of batches, and does not state the last value and status its nodes hold afterwards. Both are given per measurement by `PollMeasurement`.
- `ReadPumpOpcua.PolledSpec` and `ReadPumpOpcua.ReaderOpcua.AddPolled`: use the corrected rate check (see Findings), so a negative pollRate is refused here while the source accepts it. The rate loops are checked as written in `CorrectPollRate`.
- `WritePump.ConfigureWriter`: the MQTT branch builds its writer with the intended constructor `MqttWriter.NewMqttWriter` (see Findings). An MQTT output with a truthy `cert`, `ca` or `key` therefore gets a writer here, while the source's constructor throws a TypeError (`MqttWriter.NewMqttWriterAsWritten`).
- `WritePump.NewPumpSettings`: builds its writer through `ConfigureWriter`, so it has the same difference for an MQTT output with a truthy `cert`, `ca` or `key`.
- The `lastValue` and `lastOpcstatus` fields a reader stores on each measurement object are left out. They are set to null and never read; the nodes carry the last data that matters.
- `ReadPumpMqtt.PointMatchTypeAndSet`: the point is one the handler has just built, so the model returns it updated instead of updating it in place.
- `ReadPumpMqtt.MqttLinks`: the measurement's own node reads `in_mqtt` although its test looks at `topic`, as the source does.
- `ReadPumpMqtt.ReaderMqtt.OnMessage`: a registered topic named "__proto__" does not become an own key of the registry, because assigning to it replaces the object's prototype instead. Every other topic then also inherits that item's property names. The model keeps "__proto__" as an ordinary key.
- `ReadPumpMqtt.RegisterTopic`: assumes one granted entry per subscription. With several entries the source calls its callback once per entry, which `async.eachSeries` does not allow.
- `InfluxDbWriter.Write`: the `.catch` after `.then(resolve, reject)` calls the callback a second time, with the exception, no passed ids and every id failed, when the first callback throws. The model gives one outcome per write.
- `WritePump.WritePump.Drain`: the order in which nedb returns entries is left open.
- `WritePump.WritePump.Reconcile`: the two `remove` calls are modelled as taking effect in order and at once.

## Findings

| source | as written | input that shows it | evidently intended | confidence | as-written member | corrected member |
|---|---|---|---|---|---|---|
| writers/mqttwriter.js:34-47 | a truthy `cert`, `ca` or `key` is assigned to `this.config.cert` (and so on), but the constructor never sets `this.config`, so the assignment throws a TypeError | an output section with `url = "mqtt://localhost"`, `topicPrefix = ""`, `cert = "client.crt"` | the certificate, CA and key go into the connection options | not executed | MqttWriter.NewMqttWriterAsWritten (shown by MqttWriter.CertificateConfigExample and MqttWriter.AsWrittenDiffersOnlyOnCertificates) | MqttWriter.NewMqttWriter |
| readers/readpump_opcua.js:564-597 | a negative pollRate passes the checks (only `> 60` and `=== 0` are refused); rate -1 keeps its interval of -60 seconds, and the seconds loop of `SortMeasurementPollers` never reaches 60 | a polled measurement with `pollRate = -1` | a rate must be positive | not executed | ReadPumpOpcua.CheckPollRateAsWritten (shown by ReadPumpOpcua.NegativeRateNeverEndsAsWritten) | ReadPumpOpcua.CheckPollRate (with ReadPumpOpcua.CorrectedIntervalIsWhole) |
