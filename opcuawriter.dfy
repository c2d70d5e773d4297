/** writers/opcuawriter.js: the OPC-UA data type of an entry's value, and
    `Write`, which turns a batch into OPC-UA write requests and splits the ids
    by the status codes the server returns. The session's `write` service is
    left out; what it returns is a parameter. */
module OpcuaWriter {
  import opened Js
  import opened Outcomes
  import opened Points
  import opened Config
  import opened Validators
  import opened BaseWriter
  import OpcuaConnect

  /** The node-opcua `DataType` values the writer uses. */
  datatype OpcDataType = Double | StringType | BooleanType

  /** `get_opc_data_type(doc)`, on the entry's value. */
  function GetOpcDataType(value: Prim): (r: Option<OpcDataType>)
    ensures r == Some(Double) <==> TypeOf(value) == "number"
    ensures r == Some(StringType) <==> TypeOf(value) == "string"
    ensures r == Some(BooleanType) <==> TypeOf(value) == "boolean"
    ensures r.Some? <==> IsScalar(value)
  {
    if value.Num? then Some(Double)
    else if value.Str? then Some(StringType)
    else if value.Bool? then Some(BooleanType)
    else None
  }

  /** The OpcuaWriter constructor: the BaseWriter check, then the checks of
      OpcuaConnect on the same object. */
  function NewOpcuaWriter(config: Option<OutputConfig>): (r: Outcome)
    ensures r == Pass <==> config.Some? && OpcuaConnect.CheckConnectConfig(true, config.value.url) == Pass
    ensures config.None? ==> r == Fail(ConfigurationError)
  {
    match CheckWriterConfig(config)
    case Fail(e) => Fail(e)
    case Pass => OpcuaConnect.CheckConnectConfig(true, config.value.url)
  }

  /** One element of the `write` request: the value attribute of the node
      named by `output_config`. The entry's time is not part of it. */
  datatype WriteValue = WriteValue(nodeId: Prim, dataType: OpcDataType, value: Prim)

  /** What happens to the `uaSession.write` call. */
  datatype SessionWrite =
    | NoSession                  // `uaSession === null`
    | Throws                     // the call throws
    | WriteError                 // the callback receives an error
    | StatusCodes(codes: seq<int>)  // the callback receives one status code value per request

  /** The write request for an entry whose value has an OPC-UA type, which
      every decoded entry has. */
  function RequestOf(e: Entry): (w: WriteValue)
    requires IsScalar(e.value)
    ensures w.nodeId == e.outputConfig && w.value == e.value
    ensures w.dataType == GetOpcDataType(e.value).value
  {
    WriteValue(e.outputConfig, GetOpcDataType(e.value).value, e.value)
  }

  /** `ids[k]`, or `undefined` past the end. */
  function IdAt(ids: seq<Prim>, k: nat): Prim {
    if k < |ids| then ids[k] else Undefined
  }

  /** The ids matched by index to `n` status codes. */
  function AlignedIds(ids: seq<Prim>, n: nat): (r: seq<Prim>)
    ensures |r| == n
    ensures forall k :: 0 <= k < n ==> r[k] == IdAt(ids, k)
  {
    seq(n, k requires 0 <= k < n => IdAt(ids, k))
  }

  /** The status codes whose value is 0 (Good). */
  function GoodCodes(codes: seq<int>): (flags: seq<bool>)
    ensures |flags| == |codes|
    ensures forall k :: 0 <= k < |codes| ==> flags[k] == (codes[k] == 0)
  {
    seq(|codes|, k requires 0 <= k < |codes| => codes[k] == 0)
  }

  /** A status code with no request at its index that is not Good: logging
      `points[i].nodeId` for it throws. */
  predicate UnmatchedBadCode(codes: seq<int>, n: nat) {
    exists i :: n <= i < |codes| && codes[i] != 0
  }

  /** The `statusCodes.forEach` of the `write` callback: the id at each Good
      code's index passes, the id at every other code's index fails. */
  method SplitByStatus(ids: seq<Prim>, codes: seq<int>) returns (r: Result<WriteOutcome>)
    ensures UnmatchedBadCode(codes, |ids|) ==> r == Err(TypeError)
    ensures !UnmatchedBadCode(codes, |ids|) ==>
      r == Ok(WriteOutcome(false, Select(AlignedIds(ids, |codes|), GoodCodes(codes), true),
                                  Select(AlignedIds(ids, |codes|), GoodCodes(codes), false)))
  {
    var pass: seq<Prim> := [];
    var fail: seq<Prim> := [];
    var i := 0;
    assert codes[..0] == [];
    while i < |codes|
      invariant 0 <= i <= |codes|
      invariant SplitUpTo(ids, codes, i, pass, fail)
    {
      if codes[i] != 0 && i >= |ids| {
        assert UnmatchedBadCode(codes, |ids|);
        return Err(TypeError);
      }
      SplitStep(ids, codes, i, pass, fail);
      if codes[i] != 0 {
        fail := fail + [IdAt(ids, i)];
      } else {
        pass := pass + [IdAt(ids, i)];
      }
      i := i + 1;
    }
    assert codes[..i] == codes;
    r := Ok(WriteOutcome(false, pass, fail));
  }

  /** After the first `i` status codes: no code without a request was bad,
      and the ids so far are split by their codes. */
  ghost predicate SplitUpTo(ids: seq<Prim>, codes: seq<int>, i: nat, pass: seq<Prim>, fail: seq<Prim>)
    requires i <= |codes|
  {
    && (forall k :: |ids| <= k < i ==> codes[k] == 0)
    && pass == Select(AlignedIds(ids, i), GoodCodes(codes[..i]), true)
    && fail == Select(AlignedIds(ids, i), GoodCodes(codes[..i]), false)
  }

  /** One more status code adds its id to the side its code selects. */
  lemma SplitStep(ids: seq<Prim>, codes: seq<int>, i: nat, pass: seq<Prim>, fail: seq<Prim>)
    requires i < |codes| && SplitUpTo(ids, codes, i, pass, fail)
    requires codes[i] != 0 ==> i < |ids|
    ensures SplitUpTo(ids, codes, i + 1,
      pass + (if codes[i] == 0 then [IdAt(ids, i)] else []),
      fail + (if codes[i] != 0 then [IdAt(ids, i)] else []))
  {
    assert AlignedIds(ids, i + 1)[..i] == AlignedIds(ids, i);
    assert GoodCodes(codes[..i + 1])[..i] == GoodCodes(codes[..i]);
  }

  /** The `forEach` of `Write` over a decoded batch: ValidateEntry on each
      entry in turn, then its write request and its id. Every entry of a
      decoded batch has a value of OPC-UA type, so the "unsupported datatype"
      branch that skips an entry is dead here. */
  method BuildRequests(docs: seq<Entry>) returns (r: Outcome, points: seq<WriteValue>, ids: seq<Prim>)
    requires forall k :: 0 <= k < |docs| ==> IsValidEntry(docs[k])
    ensures r == ValidateEntries(docs)
    ensures r == Pass ==> |points| == |docs| && ids == IdsOf(docs)
    ensures r == Pass ==> forall k :: 0 <= k < |docs| ==> IsScalar(docs[k].value) && points[k] == RequestOf(docs[k])
  {
    points, ids := [], [];
    var j := 0;
    while j < |docs|
      invariant 0 <= j <= |docs|
      invariant BuiltUpTo(docs, j, points, ids)
    {
      var entry := docs[j];
      var check := ValidateEntry(Some(entry));
      if check.Err? {
        FirstRefusedDecides(docs, j, check.error);
        return Fail(check.error), [], [];
      }
      var ty := GetOpcDataType(entry.value);
      if ty.None? {
        assert false;
      }
      BuildStep(docs, j, points, ids);
      points := points + [WriteValue(entry.outputConfig, ty.value, entry.value)];
      ids := ids + [entry.id];
      j := j + 1;
    }
    assert ids == IdsOf(docs);
    r := Pass;
  }

  /** The first `j` entries were accepted, and `points` and `ids` hold their
      requests and ids. */
  ghost predicate BuiltUpTo(docs: seq<Entry>, j: nat, points: seq<WriteValue>, ids: seq<Prim>)
    requires j <= |docs|
  {
    && (forall k :: 0 <= k < j ==> ValidateEntry(Some(docs[k])).Ok?)
    && |points| == j && |ids| == j
    && (forall k :: 0 <= k < j ==> IsScalar(docs[k].value) && points[k] == RequestOf(docs[k]))
    && (forall k :: 0 <= k < j ==> ids[k] == docs[k].id)
  }

  lemma BuildStep(docs: seq<Entry>, j: nat, points: seq<WriteValue>, ids: seq<Prim>)
    requires j < |docs| && BuiltUpTo(docs, j, points, ids)
    requires ValidateEntry(Some(docs[j])).Ok? && IsScalar(docs[j].value)
    ensures BuiltUpTo(docs, j + 1, points + [RequestOf(docs[j])], ids + [docs[j].id])
  {
  }

  /** `OpcuaWriter.Write(docs, callback)`. `requests` is the array handed to
      `uaSession.write`, empty when the session is not called. */
  method Write(docs: seq<Entry>, session: SessionWrite) returns (r: Result<WriteOutcome>, requests: seq<WriteValue>)
    ensures ValidateBufferEntryArray(docs).Err? ==> r == Err(SchemaError) && requests == []
    ensures ValidateBufferEntryArray(docs).Ok? && ValidateEntries(docs).Fail? ==>
      r == Err(ValidateEntries(docs).error) && requests == []
    ensures ValidateBufferEntryArray(docs).Ok? && docs == [] ==> r == Ok(WriteOutcome(false, [], [])) && requests == []
    ensures ValidateBufferEntryArray(docs).Ok? && ValidateEntries(docs) == Pass && docs != [] ==>
      && (session.NoSession? ==> r == Ok(WriteOutcome(true, [], IdsOf(docs))) && requests == [])
      && (session.Throws? || session.WriteError? ==> r == Ok(WriteOutcome(true, [], IdsOf(docs))))
      && (!session.NoSession? ==> |requests| == |docs|)
      && (!session.NoSession? ==> forall k :: 0 <= k < |docs| ==> IsScalar(docs[k].value) && requests[k] == RequestOf(docs[k]))
      && (session.StatusCodes? && UnmatchedBadCode(session.codes, |docs|) ==> r == Err(TypeError))
      && (session.StatusCodes? && !UnmatchedBadCode(session.codes, |docs|) ==>
            var aligned, good := AlignedIds(IdsOf(docs), |session.codes|), GoodCodes(session.codes);
            r == Ok(WriteOutcome(false, Select(aligned, good, true), Select(aligned, good, false))))
  {
    requests := [];
    var validated := ValidateBufferEntryArray(docs);
    if validated.Err? {
      return Err(validated.error), [];
    }
    var check, points, ids := BuildRequests(docs);
    if check.Fail? {
      return Err(check.error), [];
    }
    if |points| <= 0 {
      return Ok(WriteOutcome(false, [], [])), [];
    }
    assert |IdsOf(docs)| == |docs|;
    if session.NoSession? {
      return Ok(WriteOutcome(true, [], ids)), [];
    }
    requests := points;
    match session
    case Throws =>
      r := Ok(WriteOutcome(true, [], ids));
    case WriteError =>
      r := Ok(WriteOutcome(true, [], ids));
    case StatusCodes(codes) =>
      r := SplitByStatus(ids, codes);
  }

  /** When the server answers one status code per request, every id ends up
      in exactly one of the two lists, and an all-Good answer passes the
      whole batch. */
  lemma StatusSplitIsPartition(ids: seq<Prim>, codes: seq<int>)
    requires |codes| == |ids|
    ensures AlignedIds(ids, |codes|) == ids
    ensures !UnmatchedBadCode(codes, |ids|)
    ensures multiset(Select(ids, GoodCodes(codes), true)) + multiset(Select(ids, GoodCodes(codes), false)) == multiset(ids)
    ensures (forall k :: 0 <= k < |codes| ==> codes[k] == 0) ==> Select(ids, GoodCodes(codes), true) == ids
  {
    assert AlignedIds(ids, |codes|) == ids;
    SelectPartition(ids, GoodCodes(codes));
    if forall k :: 0 <= k < |codes| ==> codes[k] == 0 {
      SelectUniform(ids, GoodCodes(codes), true);
    }
  }
}
