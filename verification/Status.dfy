/** What operations return. */
module Statuses {
  datatype Option<+T> = None | Some(value: T) {
    function UnwrapOr(default: T): T {
      if Some? then value else default
    }
  }

  /** The status codes that the modelled operations return, and any other that a client's handler may return. */
  datatype Status =
    | Ok
    | AllocFailed
    | IllegalPosition
    | NoMatch
    | NullInputPtr
    | OtherError(code: int)
}
