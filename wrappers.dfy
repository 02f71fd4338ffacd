/** Option and Result values, and the error kinds the game core reports. */
module Wrappers {

  datatype Option<+T> = None | Some(value: T) {
    /** The wrapped value, or `default` when there is none. */
    function GetOr(default: T): T {
      match this
      case Some(v) => v
      case None => default
    }
  }

  /** The failures the core surfaces to its callers (each a raised exception in the source). */
  datatype Error =
    | EmptyVocabulary      // the chooser was given no words
    | GameAlreadyTerminal  // a turn was requested after the game ended
    | NoAnswerSet          // a turn was requested before a hidden answer was chosen
    | EmptyCandidateSet    // the solver has no consistent candidate left to guess

  datatype Result<+T> = Ok(value: T) | Err(error: Error)
}
