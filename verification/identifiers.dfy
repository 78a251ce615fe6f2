/**
 Identifiers of the NPC state machine. The source declares both as C# enums
 whose members are not part of this model; each is modelled as a reserved
 sentinel plus an open family of real values.
 */
module Identifiers {

  /** Identity of a state; `NullStateID` means "no state" / "not found". */
  datatype StateID = NullStateID | Id(n: nat)

  /** A transition event; `NullTransition` is never a real event. */
  datatype Transition = NullTransition | Event(n: nat)
}
