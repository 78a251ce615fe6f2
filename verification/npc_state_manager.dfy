/**
 The NPC state manager: an ordered list of states with distinct ids, the id
 of the current state and the current state itself. The C# class keeps the
 last two as separate fields, and so does this model, because the source lets
 them diverge (see `PerformTransition`).

 The enter and exit hooks of a state are modelled as events in a hook trace,
 so that their order and their number can be stated.
 */
module NPCStateManagers {
  import opened Wrappers
  import opened Identifiers
  import opened Diagnostics
  import opened NPCStates

  /** A call of a lifecycle hook on the state with the given id. */
  datatype Hook = OnStateEntered(id: StateID) | OnStateExit(id: StateID)

  datatype NPCStateManager = NPCStateManager(
    states: seq<NPCState>,
    currentStateID: StateID,
    currentState: Option<NPCState>)

  /** What a transition leaves behind: the manager, the hooks it fired in order, what it logged. */
  datatype Transitioned = Transitioned(next: NPCStateManager, hooks: seq<Hook>, status: Status)

  /**
   A freshly constructed manager: no states and no current state. The id field
   holds the enum's default value, taken to be `NullStateID`.
   */
  function Empty(): (m: NPCStateManager)
    ensures |m.states| == 0 && m.currentState.None? && m.currentStateID == NullStateID
  {
    NPCStateManager([], NullStateID, None)
  }

  /** Some member of `states` has id `id`. */
  predicate HasId(states: seq<NPCState>, id: StateID)
  {
    exists i :: 0 <= i < |states| && states[i].id == id
  }

  /** No two members share an id. */
  predicate UniqueIds(states: seq<NPCState>)
  {
    forall i, j :: 0 <= i < j < |states| ==> states[i].id != states[j].id
  }

  /**
   The current state is set, is a member, and the id field agrees with it.
   The source intends this; `DeleteState` of the current state and a
   transition to a missing member both break it.
   */
  predicate Consistent(m: NPCStateManager)
  {
    && m.currentState.Some?
    && m.currentState.value in m.states
    && m.currentStateID == m.currentState.value.id
  }

  /** The position of the first member with id `id`, as the source's `foreach` searches. */
  function Find(states: seq<NPCState>, id: StateID): (r: Option<nat>)
    ensures r.Some? ==> r.value < |states| && states[r.value].id == id
    ensures r.Some? ==> forall j :: 0 <= j < r.value ==> states[j].id != id
    ensures r.None? <==> !HasId(states, id)
    decreases |states|
  {
    if |states| == 0 then None
    else if states[0].id == id then Some(0)
    else
      match Find(states[1..], id)
      case None =>
        assert forall i :: 0 < i < |states| ==> states[i] == states[1..][i - 1];
        None
      case Some(k) => Some(k + 1)
  }

  /**
   Registers `s`. Into an empty list it goes in as the only member and becomes
   current without firing a hook; otherwise it is appended unless a member
   already has its id, and the current state is left alone.
   */
  function AddState(m: NPCStateManager, s: NPCState): (r: Step<NPCStateManager>)
    ensures |m.states| == 0 ==>
              && r.status == Ok
              && r.next.states == [s]
              && r.next.currentState == Some(s)
              && r.next.currentStateID == s.id
    ensures |m.states| > 0 ==>
              r.next.currentStateID == m.currentStateID && r.next.currentState == m.currentState
    ensures |m.states| > 0 && HasId(m.states, s.id) ==> r == Step(m, Logged(StateAlreadyExists))
    ensures |m.states| > 0 && !HasId(m.states, s.id) ==> r.status == Ok && r.next.states == m.states + [s]
    ensures HasId(r.next.states, s.id)
    ensures forall id :: HasId(m.states, id) ==> HasId(r.next.states, id)
    ensures UniqueIds(m.states) ==> UniqueIds(r.next.states)
    ensures (|m.states| == 0 || Consistent(m)) ==> Consistent(r.next)
  {
    if |m.states| == 0 then
      assert [s][0] == s;
      Step(NPCStateManager([s], s.id, Some(s)), Ok)
    else if Find(m.states, s.id).Some? then
      Step(m, Logged(StateAlreadyExists))
    else
      var states' := m.states + [s];
      assert states'[|m.states|] == s;
      assert forall i :: 0 <= i < |m.states| ==> states'[i] == m.states[i];
      Step(m.(states := states'), Ok)
  }

  /** `states` without its member at position `i`, the others in their order. */
  function RemoveAt(states: seq<NPCState>, i: nat): (r: seq<NPCState>)
    requires i < |states|
    ensures |r| == |states| - 1
    ensures forall j :: 0 <= j < i ==> r[j] == states[j]
    ensures forall j :: i <= j < |r| ==> r[j] == states[j + 1]
  {
    states[..i] + states[i + 1..]
  }

  /**
   Removes the member with id `id`. The sentinel and an id no member has are
   refused. The current state and its id are never touched, even when the
   removed member was current.
   */
  function DeleteState(m: NPCStateManager, id: StateID): (r: Step<NPCStateManager>)
    ensures r.next.currentStateID == m.currentStateID && r.next.currentState == m.currentState
    ensures id == NullStateID ==> r == Step(m, Logged(NullStateIDNotAllowed))
    ensures id != NullStateID && !HasId(m.states, id) ==> r == Step(m, Logged(StateNotInList))
    ensures id != NullStateID && HasId(m.states, id) ==>
              && r.status == Ok
              && exists i :: 0 <= i < |m.states| && m.states[i].id == id && r.next.states == RemoveAt(m.states, i)
    ensures forall other :: other != id ==> (HasId(r.next.states, other) <==> HasId(m.states, other))
    ensures UniqueIds(m.states) ==> UniqueIds(r.next.states)
    ensures UniqueIds(m.states) && id != NullStateID ==> !HasId(r.next.states, id)
  {
    if id == NullStateID then Step(m, Logged(NullStateIDNotAllowed))
    else
      match Find(m.states, id)
      case None => Step(m, Logged(StateNotInList))
      case Some(i) =>
        var states' := RemoveAt(m.states, i);
        assert forall j :: 0 <= j < |states'| ==> states'[j] == m.states[if j < i then j else j + 1];
        assert forall other :: other != id && HasId(m.states, other) ==> HasId(states', other) by {
          forall other | other != id && HasId(m.states, other)
            ensures HasId(states', other)
          {
            var k :| 0 <= k < |m.states| && m.states[k].id == other;
            assert k != i;
            if k < i {
              assert states'[k] == m.states[k];
            } else {
              assert states'[k - 1] == m.states[k];
            }
          }
        }
        Step(m.(states := states'), Ok)
  }

  /**
   The id the current state's table gives for `transition`, as the first two
   checks see it. The sentinel is answered before the current state is read.
   */
  function NextStateID(m: NPCStateManager, transition: Transition): StateID
    requires transition == NullTransition || m.currentState.Some?
  {
    if transition == NullTransition then NullStateID
    else GetOutputState(m.currentState.value, transition)
  }

  /**
   Fires `transition` from the current state. The sentinel and a transition
   without an edge change nothing. With an edge to a member, the old state's
   exit hook and then the new state's enter hook fire, and the new state
   becomes current. With an edge to an id no member has, the source has
   already overwritten the id field before its search, so only that field
   changes and no hook fires. The sentinel is refused before the current
   state is read, so it is accepted even when no state is current.
   */
  function PerformTransition(m: NPCStateManager, transition: Transition): (r: Transitioned)
    requires transition == NullTransition || m.currentState.Some?
    ensures r.next.states == m.states
    ensures r.next.currentState.Some? <==> m.currentState.Some?
    ensures transition == NullTransition ==> r == Transitioned(m, [], Logged(NullTransitionNotAllowed))
    ensures transition != NullTransition && NextStateID(m, transition) == NullStateID ==>
              r == Transitioned(m, [], Logged(NoNextState))
    ensures NextStateID(m, transition) != NullStateID && HasId(m.states, NextStateID(m, transition)) ==>
              && r.status == Ok
              && r.hooks == [OnStateExit(m.currentState.value.id), OnStateEntered(NextStateID(m, transition))]
              && r.next.currentStateID == NextStateID(m, transition)
              && r.next.currentState.value.id == NextStateID(m, transition)
              && r.next.currentState.value in m.states
    ensures NextStateID(m, transition) != NullStateID && !HasId(m.states, NextStateID(m, transition)) ==>
              r == Transitioned(m.(currentStateID := NextStateID(m, transition)), [], Ok)
    ensures Consistent(m) ==>
              (Consistent(r.next) <==>
                 NextStateID(m, transition) == NullStateID || HasId(m.states, NextStateID(m, transition)))
  {
    if transition == NullTransition then
      Transitioned(m, [], Logged(NullTransitionNotAllowed))
    else
      var id := GetOutputState(m.currentState.value, transition);
      if id == NullStateID then
        Transitioned(m, [], Logged(NoNextState))
      else
        var m' := m.(currentStateID := id);
        match Find(m.states, id)
        case None => Transitioned(m', [], Ok)
        case Some(i) =>
          var hooks := [OnStateExit(m.currentState.value.id), OnStateEntered(m.states[i].id)];
          Transitioned(m'.(currentState := Some(m.states[i])), hooks, Ok)
  }
}
