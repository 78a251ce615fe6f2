/**
 The error channel of the state machine. The source reports every misuse
 through the engine's log and then returns without changing anything; here
 each kind of log message is an `Error` tag, and every operation says which
 one, if any, it would have written. A tag together with the operation that
 returned it identifies the message.
 */
module Diagnostics {

  datatype Error =
    | NullTransitionNotAllowed   // a sentinel transition was passed
    | NullStateIDNotAllowed      // a sentinel state id was passed
    | TransitionAlreadyExists    // the state already has an edge for that transition
    | TransitionNotOnList        // the state has no edge for that transition
    | StateAlreadyExists         // the manager already has a member with that id
    | StateNotInList             // the manager has no member with that id
    | NoNextState                // the current state has no edge for that transition

  /** `Ok` when nothing was logged. */
  datatype Status = Ok | Logged(error: Error)

  /** The value an operation leaves behind, with what it logged. */
  datatype Step<T> = Step(next: T, status: Status)
}
