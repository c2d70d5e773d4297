/** opcua_connect.js, only its constructor's checks, which both the OPC-UA
    reader and the OPC-UA writer run first. Connecting, sessions and
    security settings are transport code and are not part of this model. */
module OpcuaConnect {
  import opened Js
  import opened Outcomes
  import Utils

  /** `new OpcuaConnect(config, name)`: the configuration object must be
      present (`present`), and its `url` a non-blank string. */
  function CheckConnectConfig(present: bool, url: Prim): (r: Outcome)
    ensures r == Pass <==> present && Utils.ValidateConfigurationStringProperty(url, true) == Pass
    ensures !present ==> r == Fail(ConfigurationError)
  {
    if !present then Fail(ConfigurationError)
    else Utils.ValidateConfigurationStringProperty(url, true)
  }
}
