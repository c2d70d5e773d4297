/** Error kinds and result wrappers shared by every component.
    A JavaScript `throw` becomes an `Err`, a normal return an `Ok`. */
module Outcomes {

  /** The exceptions the core raises: `ConfigurationError` from utils/errors.js,
      the `decoders` guard failure (a schema error), the JavaScript `TypeError`
      that calling a string method on a non-string value raises, and the error
      an MQTT subscription that failed is reported with. */
  datatype Error = ConfigurationError | SchemaError | TypeError | SubscriptionError

  datatype Option<+T> = None | Some(value: T)

  datatype Result<+T> = Ok(value: T) | Err(error: Error)

  /** The result of a check that either passes or throws. */
  datatype Outcome = Pass | Fail(error: Error)
}
