/** Small value types shared by the three components. */
module Shared {

  /** An optional value; `None` stands for JavaScript's `undefined`/`null`. */
  datatype Option<+T> = None | Some(value: T) {
    function GetOr(default: T): T {
      match this
      case Some(v) => v
      case None => default
    }
  }

  /**
   * The identity of a registered callback. A component keeps at most one
   * callback per slot; invoking it is recorded in a log together with this
   * identity, so the model can tell which registration was called.
   */
  type CallbackId = nat
}
