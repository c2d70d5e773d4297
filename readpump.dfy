/** readpump.js: the read pump's constructor, which checks that its three
    arguments are present, takes the input's name and builds the reader the
    input's type names. The `Run` loop, which restarts the reader forever
    and reports its errors, is not part of this model. */
module ReadPump {
  import opened Js
  import opened Outcomes
  import opened Config
  import Utils
  import ReadPumpOpcua
  import ReadPumpMqtt

  /** The reader a pump drives, as its constructor leaves it. */
  datatype Reader =
    | OpcuaReader(opcua: ReadPumpOpcua.ReaderSettings)
    | MqttReader(mqtt: ReadPumpMqtt.ReaderSettings)

  /** A read pump: its name and its reader. */
  datatype Pump = Pump(name: Prim, reader: Reader)

  /** The reader constructor a type selects, or a ConfigurationError for a
      type other than "opcua" and "mqtt" (compared with `===`). */
  function NewReader(input: InputConfig, measurementsPresent: bool, writepumpPresent: bool): (r: Result<Reader>)
    ensures input.inputType != Str(Utils.INPUT_OPCUA) && input.inputType != Str(Utils.INPUT_MQTT) ==>
      r == Err(ConfigurationError)
    ensures r.Ok? && r.value.OpcuaReader? ==> input.inputType == Str(Utils.INPUT_OPCUA)
    ensures r.Ok? && r.value.MqttReader? ==> input.inputType == Str(Utils.INPUT_MQTT)
  {
    if input.inputType == Str(Utils.INPUT_OPCUA) then
      match ReadPumpOpcua.NewReaderSettings(Some(input), measurementsPresent, writepumpPresent)
      case Err(e) => Err(e)
      case Ok(s) => Ok(OpcuaReader(s))
    else if input.inputType == Str(Utils.INPUT_MQTT) then
      match ReadPumpMqtt.NewReaderSettings(Some(input), measurementsPresent, writepumpPresent)
      case Err(e) => Err(e)
      case Ok(s) => Ok(MqttReader(s))
    else Err(ConfigurationError)
  }

  /** `new ReadPump(config_input, config_measurements, writepump)`: a
      missing input, missing measurements or a missing write pump is a
      ConfigurationError, checked in that order before the type is looked
      at; otherwise the pump takes the input's name and the reader its type
      selects, and an error of that reader's constructor is the pump's. */
  function NewReadPump(input: Option<InputConfig>, measurementsPresent: bool, writepumpPresent: bool): (r: Result<Pump>)
    ensures input.None? || !measurementsPresent || !writepumpPresent ==> r == Err(ConfigurationError)
    ensures r.Ok? ==> r.value.name == input.value.name
  {
    if input.None? then Err(ConfigurationError)
    else if !measurementsPresent then Err(ConfigurationError)
    else if !writepumpPresent then Err(ConfigurationError)
    else
      match NewReader(input.value, measurementsPresent, writepumpPresent)
      case Err(e) => Err(e)
      case Ok(reader) => Ok(Pump(input.value.name, reader))
  }

  /** A pump is built exactly when its input names one of the two readers
      and that reader's own checks pass; the reader is then the one the
      type names, set up from the same input. */
  lemma NewReadPumpAccepts(input: Option<InputConfig>, measurementsPresent: bool, writepumpPresent: bool)
    ensures var r := NewReadPump(input, measurementsPresent, writepumpPresent);
      r.Ok? <==>
        || (input.Some? && input.value.inputType == Str(Utils.INPUT_OPCUA)
            && ReadPumpOpcua.CheckReaderConfig(input, measurementsPresent, writepumpPresent) == Pass)
        || (input.Some? && input.value.inputType == Str(Utils.INPUT_MQTT)
            && ReadPumpMqtt.CheckReaderConfig(input, measurementsPresent, writepumpPresent) == Pass)
    ensures var r := NewReadPump(input, measurementsPresent, writepumpPresent);
      r.Ok? ==>
        && (r.value.reader.OpcuaReader? <==> input.value.inputType == Str(Utils.INPUT_OPCUA))
        && (r.value.reader.OpcuaReader? ==> r.value.reader.opcua.config == input.value)
        && (r.value.reader.MqttReader? ==> r.value.reader.mqtt.config == input.value)
  {
    if input.Some? && !measurementsPresent {
      assert ReadPumpOpcua.CheckReaderConfig(input, measurementsPresent, writepumpPresent) != Pass;
      assert ReadPumpMqtt.CheckReaderConfig(input, measurementsPresent, writepumpPresent) != Pass;
    }
    if input.Some? && !writepumpPresent {
      assert ReadPumpOpcua.CheckReaderConfig(input, measurementsPresent, writepumpPresent) != Pass;
      assert ReadPumpMqtt.CheckReaderConfig(input, measurementsPresent, writepumpPresent) != Pass;
    }
  }

  /** An input of an unknown type, or of a type given in other letter case,
      is refused with a ConfigurationError, whatever else it holds. */
  lemma UnknownTypeRefused(input: InputConfig)
    requires input.inputType == Str("OPCUA") || input.inputType == Str("influxdb") || input.inputType == Null
    ensures NewReadPump(Some(input), true, true) == Err(ConfigurationError)
  {
  }

  /** A failed reader check is the pump's error: an OPC-UA input with a
      URL that is not a string fails with the TypeError of that check. */
  lemma ReaderErrorIsThePumps(input: InputConfig)
    requires input.inputType == Str(Utils.INPUT_OPCUA) && input.url == Num(1.0)
    ensures NewReadPump(Some(input), true, true)
      == Err(ReadPumpOpcua.CheckReaderConfig(Some(input), true, true).error)
    ensures NewReadPump(Some(input), true, true).Err?
  {
  }
}
