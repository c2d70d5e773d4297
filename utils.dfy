/** utils/utils.js: the type and collection constants, the two configuration
    guards used by every constructor, and the OPC-UA client settings selectors. */
module Utils {
  import opened Js
  import opened Outcomes

  const INPUT_OPCUA := "opcua"
  const INPUT_MQTT := "mqtt"

  const OUTPUT_OPCUA := "opcua"
  const OUTPUT_MQTT := "mqtt"
  const OUTPUT_INFLUXDB := "influxdb"

  const TYPE_NUMBER := "number"
  const TYPE_STRING := "string"
  const TYPE_BOOLEAN := "boolean"

  const COLLECTION_POLLED := "polled"
  const COLLECTION_MONITORED := "monitored"

  /** SUPPORTED_DATA_TYPES, in the order of the source array. */
  const SUPPORTED_DATA_TYPES: seq<string> := [TYPE_NUMBER, TYPE_STRING, TYPE_BOOLEAN]

  /** SUPPORTED_OPC_COLLECTION_TYPES, in the order of the source array. */
  const SUPPORTED_OPC_COLLECTION_TYPES: seq<string> := [COLLECTION_POLLED, COLLECTION_MONITORED]

  /** The supported data types are exactly number, string and boolean. */
  lemma SupportedDataTypesAreExactly(t: string)
    ensures t in SUPPORTED_DATA_TYPES <==> t == "number" || t == "string" || t == "boolean"
  {
  }

  /** `ValidateConfigurationStringProperty(value, context, validate_empty)`.
      Null and undefined are refused. With `validateEmpty` the value must also
      be a string that is not blank; a non-string has no `trim` and throws a
      TypeError. Without `validateEmpty` any other value is accepted. */
  function ValidateConfigurationStringProperty(value: Prim, validateEmpty: bool): (r: Outcome)
    ensures r == Pass <==> !IsNullish(value) && (validateEmpty ==> value.Str? && !IsBlank(value.s))
    ensures IsNullish(value) ==> r == Fail(ConfigurationError)
    ensures validateEmpty && value.Str? && IsBlank(value.s) ==> r == Fail(ConfigurationError)
    ensures r.Fail? && value.Str? ==> r.error == ConfigurationError
  {
    if IsNullish(value) then Fail(ConfigurationError)
    else if validateEmpty && !value.Str? then Fail(TypeError)
    else if validateEmpty && IsBlank(value.s) then Fail(ConfigurationError)
    else Pass
  }

  /** `ValidateConfigurationProperty(value, context)`: only null and undefined
      are refused. */
  function ValidateConfigurationProperty(value: Prim): (r: Outcome)
    ensures r == Pass <==> !IsNullish(value)
    ensures r != Pass ==> r == Fail(ConfigurationError)
  {
    if IsNullish(value) then Fail(ConfigurationError) else Pass
  }

  /** A string surrounded by spaces is accepted; a space alone is refused,
      unless empty strings are allowed. */
  lemma StringPropertyExamples()
    ensures ValidateConfigurationStringProperty(Str(" test "), true) == Pass
    ensures ValidateConfigurationStringProperty(Str(" "), true) == Fail(ConfigurationError)
    ensures ValidateConfigurationStringProperty(Str(" "), false) == Pass
    ensures ValidateConfigurationStringProperty(Str(""), false) == Pass
  {
    assert !IsBlank(" test ") by { assert !IsJsWhitespace(" test "[1]); }
  }

  /** The options object of an OPC-UA client subscription. */
  datatype SubscriptionSettings = SubscriptionSettings(
    requestedPublishingInterval: int,
    requestedLifetimeCount: int,
    requestedMaxKeepAliveCount: int,
    maxNotificationsPerPublish: int,
    publishingEnabled: bool,
    priority: int)

  datatype ConnectionStrategy = ConnectionStrategy(maxRetry: int, initialDelay: int, maxDelay: int)

  /** The options object of an OPC-UA client. */
  datatype ClientSettings = ClientSettings(
    keepSessionAlive: bool,
    endpointMustExist: bool,
    requestedSessionTimeout: int,
    transportTimeout: int,
    connectionStrategy: ConnectionStrategy)

  const DEFAULT_SUBSCRIPTION_SETTINGS := SubscriptionSettings(0, 100, 1000, 0, true, 0)

  /** One hour in milliseconds; `maxRetry: -1` means retry forever. */
  const DEFAULT_CLIENT_SETTINGS :=
    ClientSettings(true, false, 60 * 60 * 1000, 60 * 60 * 1000, ConnectionStrategy(-1, 1000, 10000))

  /** `input_config.OPCUA_ClientSubscriptionOptions || {...defaults}`. A
      configured options object is always truthy, so it wins when present. */
  function GetOPCUAClientSubscriptionSettings(configured: Option<SubscriptionSettings>): (r: SubscriptionSettings)
    ensures configured.Some? ==> r == configured.value
    ensures configured.None? ==>
      && r.requestedPublishingInterval == 0 && r.requestedLifetimeCount == 100
      && r.requestedMaxKeepAliveCount == 1000 && r.maxNotificationsPerPublish == 0
      && r.publishingEnabled && r.priority == 0
  {
    if configured.Some? then configured.value else DEFAULT_SUBSCRIPTION_SETTINGS
  }

  /** `input_config.OPCUA_ClientSettings || {...defaults}`. */
  function GetOPCUAClientSettings(configured: Option<ClientSettings>): (r: ClientSettings)
    ensures configured.Some? ==> r == configured.value
    ensures configured.None? ==>
      && r.keepSessionAlive && !r.endpointMustExist
      && r.requestedSessionTimeout == 3600000 && r.transportTimeout == 3600000
      && r.connectionStrategy == ConnectionStrategy(-1, 1000, 10000)
  {
    if configured.Some? then configured.value else DEFAULT_CLIENT_SETTINGS
  }
}
