/** writers/mqttwriter.js: the constructor's checks and settings, and
    `Write`, which publishes each entry of a batch under a topic built from
    the configured prefix and splits the ids by the publish results. The
    MQTT client is left out: whether it exists and is connected, and how
    each publish completes, are parameters. */
module MqttWriter {
  import opened Js
  import opened Outcomes
  import opened Points
  import opened Config
  import opened Validators
  import opened BaseWriter
  import Utils

  /** The options handed to `mqtt.connect` and `publish`; `protocolId` is
      always "MQTT". The certificate, CA and key settings are file paths:
      reading the files is not part of this model. */
  datatype MqttOptions = MqttOptions(
    username: Prim,
    password: Prim,
    cert: Option<Prim>,
    ca: Option<Prim>,
    key: Option<Prim>)

  /** The state the constructor leaves: `_topic_prefix`, `_host` (the trimmed
      url) and `_options`. */
  datatype MqttSettings = MqttSettings(topicPrefix: Prim, host: string, options: MqttOptions)

  /** The checks that come before the certificate settings: the BaseWriter
      check, a url that is a non-blank string, and a topic prefix that is
      not null or undefined (a blank prefix is allowed). */
  function CheckMqttConfig(config: Option<OutputConfig>): (r: Outcome)
    ensures r == Pass <==>
      && config.Some?
      && config.value.url.Str? && !IsBlank(config.value.url.s)
      && !IsNullish(config.value.topicPrefix)
    ensures config.None? ==> r == Fail(ConfigurationError)
    ensures config.Some? && IsNullish(config.value.url) ==> r == Fail(ConfigurationError)
    ensures config.Some? && config.value.url.Str? && IsBlank(config.value.url.s) ==> r == Fail(ConfigurationError)
  {
    match CheckWriterConfig(config)
    case Fail(e) => Fail(e)
    case Pass =>
      match Utils.ValidateConfigurationStringProperty(config.value.url, true)
      case Fail(e) => Fail(e)
      case Pass => Utils.ValidateConfigurationStringProperty(config.value.topicPrefix, false)
  }

  /** The MqttWriter constructor as written: a truthy `cert`, `ca` or `key`
      is assigned to a property of `this.config`, which the constructor never
      sets, so the assignment throws a TypeError. */
  function NewMqttWriterAsWritten(config: Option<OutputConfig>): (r: Result<MqttSettings>)
    ensures r.Ok? <==>
      && CheckMqttConfig(config) == Pass
      && !Truthy(config.value.cert) && !Truthy(config.value.ca) && !Truthy(config.value.key)
    ensures CheckMqttConfig(config).Fail? ==> r == Err(CheckMqttConfig(config).error)
  {
    match CheckMqttConfig(config)
    case Fail(e) => Err(e)
    case Pass =>
      var c := config.value;
      if Truthy(c.cert) || Truthy(c.ca) || Truthy(c.key) then Err(TypeError)
      else Ok(MqttSettings(c.topicPrefix, Trim(c.url.s), MqttOptions(c.username, c.password, None, None, None)))
  }

  /** The MqttWriter constructor as intended: the certificate, CA and key
      settings go into the connection options when they are truthy. */
  function NewMqttWriter(config: Option<OutputConfig>): (r: Result<MqttSettings>)
    ensures r.Ok? <==> CheckMqttConfig(config) == Pass
    ensures r.Err? ==> r.error == CheckMqttConfig(config).error
    ensures r.Ok? ==>
      && r.value.topicPrefix == config.value.topicPrefix
      && r.value.host == Trim(config.value.url.s)
      && r.value.options.username == config.value.username
      && r.value.options.password == config.value.password
      && r.value.options.cert == IfTruthy(config.value.cert)
      && r.value.options.ca == IfTruthy(config.value.ca)
      && r.value.options.key == IfTruthy(config.value.key)
  {
    match CheckMqttConfig(config)
    case Fail(e) => Err(e)
    case Pass =>
      var c := config.value;
      Ok(MqttSettings(c.topicPrefix, Trim(c.url.s),
        MqttOptions(c.username, c.password, IfTruthy(c.cert), IfTruthy(c.ca), IfTruthy(c.key))))
  }

  /** The two constructors agree on every configuration without certificate
      settings; with one, the written one throws where the intended one
      keeps the setting. */
  lemma AsWrittenDiffersOnlyOnCertificates(config: Option<OutputConfig>)
    ensures config.Some? && !Truthy(config.value.cert) && !Truthy(config.value.ca) && !Truthy(config.value.key) ==>
      NewMqttWriterAsWritten(config) == NewMqttWriter(config)
    ensures CheckMqttConfig(config) == Pass && (Truthy(config.value.cert) || Truthy(config.value.ca) || Truthy(config.value.key)) ==>
      NewMqttWriterAsWritten(config) == Err(TypeError) && NewMqttWriter(config).Ok?
  {
  }

  /** A configuration with a url, a prefix and a certificate path: the
      written constructor throws, the intended one accepts it and keeps the
      path. */
  lemma CertificateConfigExample(c: OutputConfig)
    requires c.url == Str("mqtt://localhost") && c.topicPrefix == Str("") && c.cert == Str("client.crt")
    ensures NewMqttWriterAsWritten(Some(c)) == Err(TypeError)
    ensures NewMqttWriter(Some(c)).Ok? && NewMqttWriter(Some(c)).value.options.cert == Some(Str("client.crt"))
  {
    assert !IsJsWhitespace(c.url.s[0]);
  }

  /** The client as `Write` finds it: `mqttOutput === null`, or a client
      with its `connected` flag. */
  datatype MqttClient = NoClient | Client(connected: bool)

  /** One `publish(topic, payload)`. */
  datatype Publication = Publication(topic: string, payload: string)

  /** `_create_publish_result(success, errormessage, entry)`; the error
      message is only logged and is not part of this model. */
  datatype PublishResult = PublishResult(success: bool, entryId: Prim)

  /** `String(topicPrefix).concat(output_config)`. */
  function TopicOf(prefix: Prim, e: Entry, numText: real -> string): (t: string)
    ensures e.outputConfig.Str? ==> t == ToStr(prefix, numText) + e.outputConfig.s
  {
    ToStr(prefix, numText) + ToStr(e.outputConfig, numText)
  }

  /** A topic `_PublishMessage` publishes to: not blank and holding neither
      wildcard character, since a PUBLISH topic name must not contain
      wildcards (section 3.3.2.1 of MQTT 3.1.1). */
  predicate IsPublishableTopic(topic: string) {
    !IsBlank(topic) && !HasChar(topic, '#') && !HasChar(topic, '+')
  }

  /** What `_PublishMessage` does with an entry that passed ValidateEntry:
      `None` when the topic is refused without publishing, otherwise the
      message, whose payload is `String(timed_value.value)`. */
  function PublishDecision(prefix: Prim, e: Entry, numText: real -> string): (r: Option<Publication>)
    ensures r.Some? <==> IsPublishableTopic(TopicOf(prefix, e, numText))
    ensures r.Some? ==> r.value == Publication(TopicOf(prefix, e, numText), ToStr(e.value, numText))
  {
    var topic := TopicOf(prefix, e, numText);
    if IsBlank(topic) then None
    else if HasChar(topic, '#') then None
    else if HasChar(topic, '+') then None
    else Some(Publication(topic, ToStr(e.value, numText)))
  }

  /** The messages published for `docs`, in order. */
  function Publications(prefix: Prim, docs: seq<Entry>, numText: real -> string): (r: seq<Publication>)
    ensures |r| <= |docs|
  {
    if docs == [] then []
    else
      var n := |docs| - 1;
      var d := PublishDecision(prefix, docs[n], numText);
      Publications(prefix, docs[..n], numText) + (if d.Some? then [d.value] else [])
  }

  /** Whether the entry at index `k` is published successfully: its topic is
      accepted and its publish callback (`ack(k)`) gets no error. */
  function Succeeded(prefix: Prim, docs: seq<Entry>, ack: nat -> bool, numText: real -> string): (flags: seq<bool>)
    ensures |flags| == |docs|
    ensures forall k :: 0 <= k < |docs| ==> flags[k] == (PublishDecision(prefix, docs[k], numText).Some? && ack(k))
  {
    seq(|docs|, k requires 0 <= k < |docs| => PublishDecision(prefix, docs[k], numText).Some? && ack(k))
  }

  /** `_PublishMessage` for an entry that passed ValidateEntry, at index `j`
      of the batch: a refused topic fails without publishing, otherwise the
      message is published and its callback decides the result. */
  method PublishMessage(prefix: Prim, entry: Entry, j: nat, ack: nat -> bool, numText: real -> string)
    returns (result: PublishResult, published: Option<Publication>)
    ensures published == PublishDecision(prefix, entry, numText)
    ensures result == PublishResult(published.Some? && ack(j), entry.id)
  {
    var topic := TopicOf(prefix, entry, numText);
    if IsBlank(topic) {
      return PublishResult(false, entry.id), None;
    }
    if HasChar(topic, '#') {
      return PublishResult(false, entry.id), None;
    }
    if HasChar(topic, '+') {
      return PublishResult(false, entry.id), None;
    }
    published := Some(Publication(topic, ToStr(entry.value, numText)));
    result := PublishResult(ack(j), entry.id);
  }

  /** The results `async.map` collects for `docs`, in order. */
  function ResultsOf(prefix: Prim, docs: seq<Entry>, ack: nat -> bool, numText: real -> string): (r: seq<PublishResult>)
    ensures |r| == |docs|
  {
    if docs == [] then []
    else
      var n := |docs| - 1;
      ResultsOf(prefix, docs[..n], ack, numText)
        + [PublishResult(PublishDecision(prefix, docs[n], numText).Some? && ack(n), docs[n].id)]
  }

  /** Result `k` is that of entry `k`. */
  lemma {:induction false} ResultsOfAt(prefix: Prim, docs: seq<Entry>, ack: nat -> bool, numText: real -> string, k: nat)
    requires k < |docs|
    ensures ResultsOf(prefix, docs, ack, numText)[k]
      == PublishResult(PublishDecision(prefix, docs[k], numText).Some? && ack(k), docs[k].id)
  {
    var n := |docs| - 1;
    ResultsOfSnoc(prefix, docs, ack, numText);
    if k < n {
      ResultsOfAt(prefix, docs[..n], ack, numText, k);
      assert docs[..n][k] == docs[k];
    }
  }

  /** The results carry the batch's ids, and the success flags of
      `Succeeded`. */
  lemma ResultsOfMatches(prefix: Prim, docs: seq<Entry>, ack: nat -> bool, numText: real -> string)
    ensures ResultIds(ResultsOf(prefix, docs, ack, numText)) == IdsOf(docs)
    ensures ResultFlags(ResultsOf(prefix, docs, ack, numText)) == Succeeded(prefix, docs, ack, numText)
  {
    var rs := ResultsOf(prefix, docs, ack, numText);
    forall k | 0 <= k < |docs|
      ensures rs[k] == PublishResult(PublishDecision(prefix, docs[k], numText).Some? && ack(k), docs[k].id)
    {
      ResultsOfAt(prefix, docs, ack, numText, k);
    }
  }

  /** `async.map(async_writes, _PublishMessage, ...)`: the entries are
      handled in order; the first one ValidateEntry refuses throws after the
      messages of the entries before it are published. */
  method PublishAll(prefix: Prim, docs: seq<Entry>, ack: nat -> bool, numText: real -> string)
    returns (r: Outcome, results: seq<PublishResult>, sent: seq<Publication>)
    ensures r == ValidateEntries(docs)
    ensures r.Fail? ==> forall k :: FirstRefused(docs, k, r.error) ==> sent == Publications(prefix, docs[..k], numText)
    ensures r == Pass ==> sent == Publications(prefix, docs, numText) && results == ResultsOf(prefix, docs, ack, numText)
  {
    results, sent := [], [];
    var j := 0;
    assert docs[..0] == [];
    while j < |docs|
      invariant 0 <= j <= |docs|
      invariant PublishedUpTo(prefix, docs, ack, numText, j, results, sent)
    {
      var check;
      check, results, sent := PublishNext(prefix, docs, ack, numText, j, results, sent);
      if check.Fail? {
        return check, results, sent;
      }
      j := j + 1;
    }
    PublishedEverything(prefix, docs, ack, numText, results, sent);
    r := Pass;
  }

  /** One step of `async.map`: entry `j` is checked, and either refused,
      which ends the batch with its error and nothing more published, or
      published as `PublishDecision` says, with its result appended. */
  method PublishNext(prefix: Prim, docs: seq<Entry>, ack: nat -> bool, numText: real -> string,
                     j: nat, results: seq<PublishResult>, sent: seq<Publication>)
    returns (check: Outcome, results': seq<PublishResult>, sent': seq<Publication>)
    requires j < |docs| && PublishedUpTo(prefix, docs, ack, numText, j, results, sent)
    ensures check.Fail? ==> check == ValidateEntries(docs) && results' == results && sent' == sent
    ensures check.Fail? ==> forall k :: FirstRefused(docs, k, check.error) ==> sent == Publications(prefix, docs[..k], numText)
    ensures check == Pass ==> PublishedUpTo(prefix, docs, ack, numText, j + 1, results', sent')
  {
    var entry := docs[j];
    var valid := ValidateEntry(Some(entry));
    if valid.Err? {
      PublishRefused(prefix, docs, ack, numText, j, results, sent, valid.error);
      return Fail(valid.error), results, sent;
    }
    var result, published := PublishMessage(prefix, entry, j, ack, numText);
    PublishStep(prefix, docs, ack, numText, j, results, sent, result, published);
    sent' := if published.Some? then sent + [published.value] else sent;
    results' := results + [result];
    check := Pass;
  }

  /** A refused entry ends the batch with its error, after the messages of
      the entries before it. */
  lemma PublishRefused(prefix: Prim, docs: seq<Entry>, ack: nat -> bool, numText: real -> string,
                       j: nat, results: seq<PublishResult>, sent: seq<Publication>, e: Error)
    requires j < |docs| && PublishedUpTo(prefix, docs, ack, numText, j, results, sent)
    requires ValidateEntry(Some(docs[j])) == Err(e)
    ensures ValidateEntries(docs) == Fail(e)
    ensures forall k :: FirstRefused(docs, k, e) ==> sent == Publications(prefix, docs[..k], numText)
  {
    assert FirstRefused(docs, j, e);
    FirstRefusedDecides(docs, j, e);
    assert forall k :: FirstRefused(docs, k, e) ==> k == j;
  }

  /** A batch handled to its end passes, with every message and result. */
  lemma PublishedEverything(prefix: Prim, docs: seq<Entry>, ack: nat -> bool, numText: real -> string,
                            results: seq<PublishResult>, sent: seq<Publication>)
    requires PublishedUpTo(prefix, docs, ack, numText, |docs|, results, sent)
    ensures ValidateEntries(docs) == Pass
    ensures sent == Publications(prefix, docs, numText) && results == ResultsOf(prefix, docs, ack, numText)
  {
    assert docs[..|docs|] == docs;
  }

  /** The first `j` entries were accepted, their messages published and
      their results collected. */
  ghost predicate PublishedUpTo(prefix: Prim, docs: seq<Entry>, ack: nat -> bool, numText: real -> string,
                                j: nat, results: seq<PublishResult>, sent: seq<Publication>)
    requires j <= |docs|
  {
    && (forall k :: 0 <= k < j ==> ValidateEntry(Some(docs[k])).Ok?)
    && sent == Publications(prefix, docs[..j], numText)
    && results == ResultsOf(prefix, docs[..j], ack, numText)
  }

  /** One more accepted entry publishes what `PublishDecision` says and
      adds its result. */
  lemma PublishStep(prefix: Prim, docs: seq<Entry>, ack: nat -> bool, numText: real -> string,
                    j: nat, results: seq<PublishResult>, sent: seq<Publication>,
                    result: PublishResult, published: Option<Publication>)
    requires j < |docs| && PublishedUpTo(prefix, docs, ack, numText, j, results, sent)
    requires ValidateEntry(Some(docs[j])).Ok?
    requires published == PublishDecision(prefix, docs[j], numText)
    requires result == PublishResult(published.Some? && ack(j), docs[j].id)
    ensures PublishedUpTo(prefix, docs, ack, numText, j + 1,
      results + [result], sent + (if published.Some? then [published.value] else []))
  {
    PublicationsSnoc(prefix, docs[..j + 1], numText);
    ResultsOfSnoc(prefix, docs[..j + 1], ack, numText);
    assert docs[..j + 1][..j] == docs[..j];
  }

  /** Publications grow by the decision about the last entry. */
  lemma PublicationsSnoc(prefix: Prim, docs: seq<Entry>, numText: real -> string)
    requires docs != []
    ensures var d := PublishDecision(prefix, docs[|docs| - 1], numText);
      Publications(prefix, docs, numText)
        == Publications(prefix, docs[..|docs| - 1], numText) + (if d.Some? then [d.value] else [])
  {
  }

  /** Results grow by the result of the last entry. */
  lemma ResultsOfSnoc(prefix: Prim, docs: seq<Entry>, ack: nat -> bool, numText: real -> string)
    requires docs != []
    ensures var n := |docs| - 1;
      ResultsOf(prefix, docs, ack, numText)
        == ResultsOf(prefix, docs[..n], ack, numText)
          + [PublishResult(PublishDecision(prefix, docs[n], numText).Some? && ack(n), docs[n].id)]
  {
  }

  function ResultIds(results: seq<PublishResult>): (ids: seq<Prim>)
    ensures |ids| == |results|
    ensures forall k :: 0 <= k < |results| ==> ids[k] == results[k].entryId
  {
    seq(|results|, k requires 0 <= k < |results| => results[k].entryId)
  }

  function ResultFlags(results: seq<PublishResult>): (flags: seq<bool>)
    ensures |flags| == |results|
    ensures forall k :: 0 <= k < |results| ==> flags[k] == results[k].success
  {
    seq(|results|, k requires 0 <= k < |results| => results[k].success)
  }

  /** The final callback of `async.map`: successful results pass, the others
      fail, both in result order; the error is set iff some result failed. */
  method SplitResults(results: seq<PublishResult>) returns (r: WriteOutcome)
    ensures r.pass == Select(ResultIds(results), ResultFlags(results), true)
    ensures r.fail == Select(ResultIds(results), ResultFlags(results), false)
    ensures r.err <==> r.fail != []
  {
    var pass: seq<Prim> := [];
    var fail: seq<Prim> := [];
    var i := 0;
    while i < |results|
      invariant 0 <= i <= |results|
      invariant pass == Select(ResultIds(results[..i]), ResultFlags(results[..i]), true)
      invariant fail == Select(ResultIds(results[..i]), ResultFlags(results[..i]), false)
    {
      assert ResultIds(results[..i + 1])[..i] == ResultIds(results[..i]);
      assert ResultFlags(results[..i + 1])[..i] == ResultFlags(results[..i]);
      if results[i].success {
        pass := pass + [results[i].entryId];
      } else {
        fail := fail + [results[i].entryId];
      }
      i := i + 1;
    }
    assert results[..i] == results;
    r := WriteOutcome(|fail| > 0, pass, fail);
  }

  /** `MqttWriter.Write(docs, callback)`. `sent` is the messages published.
      Without a connected client every id fails and nothing is checked
      beyond the schema. */
  method Write(settings: MqttSettings, client: MqttClient, docs: seq<Entry>, ack: nat -> bool, numText: real -> string)
    returns (r: Result<WriteOutcome>, sent: seq<Publication>)
    ensures ValidateBufferEntryArray(docs).Err? ==> r == Err(SchemaError) && sent == []
    ensures ValidateBufferEntryArray(docs).Ok? && !(client.Client? && client.connected) ==>
      r == Ok(WriteOutcome(true, [], IdsOf(docs))) && sent == []
    ensures ValidateBufferEntryArray(docs).Ok? && client.Client? && client.connected && ValidateEntries(docs).Fail? ==>
      && r == Err(ValidateEntries(docs).error)
      && forall k :: FirstRefused(docs, k, r.error) ==> sent == Publications(settings.topicPrefix, docs[..k], numText)
    ensures ValidateBufferEntryArray(docs).Ok? && client.Client? && client.connected && ValidateEntries(docs) == Pass ==>
      var flags := Succeeded(settings.topicPrefix, docs, ack, numText);
      && sent == Publications(settings.topicPrefix, docs, numText)
      && r == Ok(WriteOutcome(Select(IdsOf(docs), flags, false) != [],
                              Select(IdsOf(docs), flags, true), Select(IdsOf(docs), flags, false)))
  {
    var validated := ValidateBufferEntryArray(docs);
    if validated.Err? {
      return Err(validated.error), [];
    }
    if client.NoClient? || !client.connected {
      return Ok(WriteOutcome(true, [], IdsOf(docs))), [];
    }
    var check, results;
    check, results, sent := PublishAll(settings.topicPrefix, docs, ack, numText);
    if check.Fail? {
      return Err(check.error), sent;
    }
    ResultsOfMatches(settings.topicPrefix, docs, ack, numText);
    var outcome := SplitResults(results);
    r := Ok(outcome);
  }

  /** Every id of the batch is passed or failed, exactly once, and the error
      is set exactly when some entry was not published successfully. */
  lemma WriteIsPartition(prefix: Prim, docs: seq<Entry>, ack: nat -> bool, numText: real -> string)
    ensures var flags := Succeeded(prefix, docs, ack, numText);
      multiset(Select(IdsOf(docs), flags, true)) + multiset(Select(IdsOf(docs), flags, false)) == multiset(IdsOf(docs))
    ensures var flags := Succeeded(prefix, docs, ack, numText);
      Select(IdsOf(docs), flags, false) != [] <==> exists k :: 0 <= k < |docs| && !flags[k]
  {
    var flags := Succeeded(prefix, docs, ack, numText);
    SelectPartition(IdsOf(docs), flags);
    SelectEmptyIff(IdsOf(docs), flags, false);
  }

  /** A topic with a wildcard is refused whatever the prefix, and so is a
      blank topic; a refused entry fails without being published. */
  lemma TopicExamples(e: Entry, numText: real -> string)
    ensures PublishDecision(Str("a/"), e.(outputConfig := Str("b/#")), numText) == None
    ensures PublishDecision(Str("a/"), e.(outputConfig := Str("+/b")), numText) == None
    ensures PublishDecision(Str(""), e.(outputConfig := Str(" ")), numText) == None
    ensures PublishDecision(Str("a/"), e.(outputConfig := Str("b")), numText) == Some(Publication("a/b", ToStr(e.value, numText)))
  {
    var ok := e.(outputConfig := Str("b"));
    assert TopicOf(Str("a/"), e.(outputConfig := Str("b/#")), numText) == "a/b/#";
    assert "a/b/#"[4] == '#';
    assert TopicOf(Str("a/"), e.(outputConfig := Str("+/b")), numText) == "a/+/b";
    assert "a/+/b"[2] == '+';
    assert TopicOf(Str("a/"), ok, numText) == "a/b";
    assert !IsJsWhitespace("a/b"[0]);
    assert !HasChar("a/b", '#') && !HasChar("a/b", '+');
  }
}
