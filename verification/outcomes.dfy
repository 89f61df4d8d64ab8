/** Option, errors and results shared by the inventory and tag modules. */
module Outcomes {

  /** A possibly-absent value: `None` stands for a JavaScript `undefined` field. */
  datatype Option<+T> = None | Some(value: T) {
    function GetOr(default: T): T {
      match this
      case Some(v) => v
      case None => default
    }
  }

  /** The exceptions the core throws. */
  datatype Error =
    | ValidationError(message: string)
      /** `RecordNotFoundException`; its cause is the selector `{_id: selectorId}` that found nothing. */
    | RecordNotFound(message: string, selectorId: string)

  /** The outcome of an operation that may throw. */
  datatype Result<+T> = Ok(value: T) | Err(error: Error)
}
