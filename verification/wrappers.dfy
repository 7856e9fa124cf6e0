/** Failure-carrying wrappers shared by every module of the model. */
module Wrappers {

  /** An optional value: a nullable column, an absent request field. */
  datatype Option<+T> = None | Some(value: T) {

    /** The wrapped value, or `default` when there is none. */
    function GetOr(default: T): T {
      match this
      case Some(v) => v
      case None => default
    }
  }

  /** The outcome of a service call: a value, or the message of the Error the service throws. */
  datatype Result<+T> = Ok(value: T) | Err(message: string) {
    predicate IsFailure() { Err? }
  }

  /** An HTTP reply as the controllers build it: a status code and the `message` of the JSON body. */
  datatype Reply = Reply(code: nat, message: string)

  /** A request text field is "filled" when it is present and not the empty string (JavaScript truthiness). */
  predicate Filled(o: Option<string>) {
    o.Some? && o.value != ""
  }
}
