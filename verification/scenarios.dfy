/**
 Concrete runs of the state machine: an NPC with an idle and a patrol state,
 where seeing the player moves it from idle to patrol.
 */
module Scenarios {
  import opened Wrappers
  import opened Identifiers
  import opened Diagnostics
  import opened NPCStates
  import opened NPCStateManagers

  const IdleID := Id(1)
  const PatrolID := Id(2)
  const SawPlayer := Event(1)
  const LostPlayer := Event(2)

  /** The idle state, with its one edge: seeing the player leads to patrol. */
  function Idle(): (s: NPCState)
    ensures s.id == IdleID
    ensures GetOutputState(s, SawPlayer) == PatrolID
    ensures GetOutputState(s, LostPlayer) == NullStateID
  {
    AddTransition(NewState(IdleID), SawPlayer, PatrolID).next
  }

  /** Idle then patrol, registered in that order into a fresh manager. */
  function Setup(): (m: NPCStateManager)
    ensures m.states == [Idle(), NewState(PatrolID)]
    ensures m.currentStateID == IdleID && m.currentState == Some(Idle())
  {
    var m1 := AddState(Empty(), Idle()).next;
    var patrol := NewState(PatrolID);
    assert !HasId(m1.states, patrol.id) by {
      assert m1.states == [Idle()];
    }
    AddState(m1, patrol).next
  }

  /** Seeing the player leaves idle, enters patrol, each exactly once and in that order. */
  lemma SawPlayerMovesToPatrol()
    ensures PerformTransition(Setup(), SawPlayer).next.currentStateID == PatrolID
    ensures PerformTransition(Setup(), SawPlayer).hooks == [OnStateExit(IdleID), OnStateEntered(PatrolID)]
    ensures PerformTransition(Setup(), SawPlayer).status == Ok
  {
  }

  /** A transition idle has no edge for is refused: nothing moves and no hook fires. */
  lemma LostPlayerIsRefused()
    ensures PerformTransition(Setup(), LostPlayer) == Transitioned(Setup(), [], Logged(NoNextState))
  {
  }

  /** Adding idle a second time is refused and the list keeps one member. */
  lemma DuplicateAddIsRefused()
    ensures AddState(AddState(Empty(), Idle()).next, Idle()).status == Logged(StateAlreadyExists)
    ensures |AddState(AddState(Empty(), Idle()).next, Idle()).next.states| == 1
  {
  }

  /** Deleting an id no member has is refused and the list is unchanged. */
  lemma DeleteMissingIsRefused()
    ensures DeleteState(Setup(), Id(3)) == Step(Setup(), Logged(StateNotInList))
  {
  }

  /**
   Once patrol has been deleted, seeing the player still overwrites the
   current id with patrol's, but no member matches, so the current state stays
   idle and no hook fires: the id and the state it should name disagree.
   */
  lemma TransitionToDeletedStateDiverges()
    ensures PerformTransition(DeleteState(Setup(), PatrolID).next, SawPlayer).next.currentStateID == PatrolID
    ensures PerformTransition(DeleteState(Setup(), PatrolID).next, SawPlayer).next.currentState == Some(Idle())
    ensures PerformTransition(DeleteState(Setup(), PatrolID).next, SawPlayer).hooks == []
    ensures !Consistent(PerformTransition(DeleteState(Setup(), PatrolID).next, SawPlayer).next)
  {
  }

  /** The sentinel transition is refused even on a fresh manager, which has no current state. */
  lemma NullTransitionOnFreshManager()
    ensures PerformTransition(Empty(), NullTransition) == Transitioned(Empty(), [], Logged(NullTransitionNotAllowed))
    ensures PerformTransition(Empty(), NullTransition).next.currentStateID == Empty().currentStateID
  {
  }

  /** An edge to the sentinel id, which a subclass can write into its table, is logged as having no next state. */
  lemma EdgeToNullIsRefused()
    ensures var m := AddState(Empty(), NPCState(IdleID, map[SawPlayer := NullStateID])).next;
            PerformTransition(m, SawPlayer) == Transitioned(m, [], Logged(NoNextState))
  {
  }
}
