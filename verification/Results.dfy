/** Answers: an optional value, and what becomes of a command sent to the host. */
module Results {
  datatype Option<T> = None | Some(value: T) {
    function GetOr(default: T): T {
      if Some? then value else default
    }
  }

  /** The host refuses a command, carries it out without an answer reaching the guest in time,
      or carries it out and answers OK. */
  datatype Outcome = Refused | Unanswered | Completed
}
