/** data_validators.js: the decoder schemas for buffer entries and read points
    and the three guards built on them. A guard returns its input when it
    decodes and throws otherwise. */
module Validators {
  import opened Js
  import opened Outcomes
  import opened Points

  /** `optional(string)`: absent or a string. */
  predicate IsOptionalString(p: Prim) {
    p == Undefined || p.Str?
  }

  /** `either3(number, string, boolean)`. */
  predicate IsScalar(p: Prim) {
    p.Num? || p.Str? || p.Bool?
  }

  /** The `entry` schema with its nested `timed_value`; `tags` and
      `output_config` are `mixed`. */
  predicate IsValidEntry(e: Entry) {
    && IsOptionalString(e.id)
    && e.measurementName.Str?
    && e.time.Num?
    && IsScalar(e.value)
    && e.i.Num?
  }

  /** The `node` schema; `nodeId`, `topic` and `calc` (`calcSource`) are `mixed`. */
  predicate IsValidNode(n: NodeConfig) {
    && IsOptionalString(n.outInflux)
    && IsOptionalString(n.outOpcua)
    && IsOptionalString(n.outMqtt)
    && n.dataType.Str?
    && n.useCalc.Bool?
  }

  /** The `read_point` schema. */
  predicate IsValidReadPoint(p: Point) {
    && IsValidNode(p.node.config)
    && IsScalar(p.value)
    && p.timestamp.Num?
    && IsOptionalString(p.opcstatus)
  }

  /** `validate_buffer_entry`. */
  function ValidateBufferEntry(e: Entry): (r: Result<Entry>)
    ensures r.Ok? <==> IsValidEntry(e)
    ensures r.Ok? ==> r.value == e
    ensures r.Err? ==> r.error == SchemaError
  {
    if IsValidEntry(e) then Ok(e) else Err(SchemaError)
  }

  /** `validate_buffer_entry_array`: the array decoder checks the elements in
      order and fails on the first one that does not decode. */
  function ValidateBufferEntryArray(es: seq<Entry>): (r: Result<seq<Entry>>)
    ensures r.Ok? <==> forall k :: 0 <= k < |es| ==> IsValidEntry(es[k])
    ensures r.Ok? ==> r.value == es
    ensures r.Err? ==> r.error == SchemaError
  {
    if es == [] then Ok([])
    else if !IsValidEntry(es[0]) then Err(SchemaError)
    else
      match ValidateBufferEntryArray(es[1..])
      case Ok(rest) => Ok([es[0]] + rest)
      case Err(e) => Err(e)
  }

  /** `validate_point_array`. */
  function ValidatePointArray(ps: seq<Point>): (r: Result<seq<Point>>)
    ensures r.Ok? <==> forall k :: 0 <= k < |ps| ==> IsValidReadPoint(ps[k])
    ensures r.Ok? ==> r.value == ps
    ensures r.Err? ==> r.error == SchemaError
  {
    if ps == [] then Ok([])
    else if !IsValidReadPoint(ps[0]) then Err(SchemaError)
    else
      match ValidatePointArray(ps[1..])
      case Ok(rest) => Ok([ps[0]] + rest)
      case Err(e) => Err(e)
  }
}
