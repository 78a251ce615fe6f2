/**
 One node of the NPC state machine (the `NPCState` base class): its identity
 and its outgoing transition table. The per-frame hooks a concrete state
 supplies are not part of this module; the enter/exit hooks appear as events
 in the manager's hook trace.
 */
module NPCStates {
  import opened Identifiers
  import opened Diagnostics

  datatype NPCState = NPCState(id: StateID, transitionMap: map<Transition, StateID>)

  /** A state as a concrete subclass constructs it: its id and no edges yet. */
  function NewState(id: StateID): (s: NPCState)
    ensures s.id == id && WellFormedTable(s.transitionMap)
    ensures forall t :: GetOutputState(s, t) == NullStateID
  {
    NPCState(id, map[])
  }

  /** The table never holds the sentinel transition as a key nor the sentinel id as a destination. */
  predicate WellFormedTable(table: map<Transition, StateID>)
  {
    && NullTransition !in table
    && forall t :: t in table ==> table[t] != NullStateID
  }

  /**
   Registers the edge `transition -> id`. The sentinels and a second edge for
   the same transition are refused, in that order, and leave the state as it was.
   */
  function AddTransition(s: NPCState, transition: Transition, id: StateID): (r: Step<NPCState>)
    ensures r.next.id == s.id
    ensures r.status == Ok <==> r.next != s
    ensures transition == NullTransition ==> r == Step(s, Logged(NullTransitionNotAllowed))
    ensures transition != NullTransition && id == NullStateID ==> r == Step(s, Logged(NullStateIDNotAllowed))
    ensures transition != NullTransition && id != NullStateID && transition in s.transitionMap ==>
              r == Step(s, Logged(TransitionAlreadyExists))
    ensures transition != NullTransition && id != NullStateID && transition !in s.transitionMap ==>
              && r.status == Ok
              && r.next.transitionMap.Keys == s.transitionMap.Keys + {transition}
              && r.next.transitionMap[transition] == id
              && forall t :: t in s.transitionMap ==> r.next.transitionMap[t] == s.transitionMap[t]
    ensures WellFormedTable(s.transitionMap) ==> WellFormedTable(r.next.transitionMap)
  {
    if transition == NullTransition then Step(s, Logged(NullTransitionNotAllowed))
    else if id == NullStateID then Step(s, Logged(NullStateIDNotAllowed))
    else if transition in s.transitionMap then Step(s, Logged(TransitionAlreadyExists))
    else Step(s.(transitionMap := s.transitionMap[transition := id]), Ok)
  }

  /** Removes the edge for `transition`; the sentinel and an absent edge are refused. */
  function DeleteTransition(s: NPCState, transition: Transition): (r: Step<NPCState>)
    ensures r.next.id == s.id
    ensures r.status == Ok <==> r.next != s
    ensures transition == NullTransition ==> r == Step(s, Logged(NullTransitionNotAllowed))
    ensures transition != NullTransition && transition !in s.transitionMap ==>
              r == Step(s, Logged(TransitionNotOnList))
    ensures transition != NullTransition && transition in s.transitionMap ==>
              && r.status == Ok
              && r.next.transitionMap.Keys == s.transitionMap.Keys - {transition}
              && forall t :: t in r.next.transitionMap ==> r.next.transitionMap[t] == s.transitionMap[t]
    ensures WellFormedTable(s.transitionMap) ==> WellFormedTable(r.next.transitionMap)
  {
    if transition == NullTransition then Step(s, Logged(NullTransitionNotAllowed))
    else if transition in s.transitionMap then
      assert transition !in s.transitionMap - {transition};
      Step(s.(transitionMap := s.transitionMap - {transition}), Ok)
    else Step(s, Logged(TransitionNotOnList))
  }

  /** The destination of `transition` from this state, or `NullStateID` when it has no edge. */
  function GetOutputState(s: NPCState, transition: Transition): (r: StateID)
    ensures transition in s.transitionMap ==> r == s.transitionMap[transition]
    ensures r != NullStateID ==> transition in s.transitionMap && s.transitionMap[transition] == r
    ensures WellFormedTable(s.transitionMap) ==> (r == NullStateID <==> transition !in s.transitionMap)
    ensures WellFormedTable(s.transitionMap) && transition == NullTransition ==> r == NullStateID
  {
    if transition in s.transitionMap then s.transitionMap[transition] else NullStateID
  }

  /** Right after a successful `AddTransition(t, d)`, looking `t` up yields `d` and nothing else moved. */
  lemma AddThenGet(s: NPCState, t: Transition, d: StateID)
    requires AddTransition(s, t, d).status == Ok
    ensures GetOutputState(AddTransition(s, t, d).next, t) == d
    ensures forall u :: u != t ==> GetOutputState(AddTransition(s, t, d).next, u) == GetOutputState(s, u)
  {
  }

  /** Right after a successful `DeleteTransition(t)`, `t` has no edge and nothing else moved. */
  lemma DeleteThenGet(s: NPCState, t: Transition)
    requires DeleteTransition(s, t).status == Ok
    ensures GetOutputState(DeleteTransition(s, t).next, t) == NullStateID
    ensures forall u :: u != t ==> GetOutputState(DeleteTransition(s, t).next, u) == GetOutputState(s, u)
  {
  }

  /** Deleting an edge that was just added gives back the state it was added to. */
  lemma AddThenDelete(s: NPCState, t: Transition, d: StateID)
    requires AddTransition(s, t, d).status == Ok
    ensures DeleteTransition(AddTransition(s, t, d).next, t) == Step(s, Ok)
  {
    var added := AddTransition(s, t, d).next;
    assert added.transitionMap - {t} == s.transitionMap;
  }

  /** Re-adding an edge that was just deleted gives back the state it was deleted from. */
  lemma DeleteThenAdd(s: NPCState, t: Transition)
    requires WellFormedTable(s.transitionMap)
    requires t in s.transitionMap
    ensures AddTransition(DeleteTransition(s, t).next, t, s.transitionMap[t]) == Step(s, Ok)
  {
    var deleted := DeleteTransition(s, t).next;
    assert deleted.transitionMap[t := s.transitionMap[t]] == s.transitionMap;
  }

  /** Registers the edges one after another, as a concrete state's constructor does. */
  function AddTransitions(s: NPCState, edges: seq<(Transition, StateID)>): (r: NPCState)
    decreases |edges|
  {
    if |edges| == 0 then s
    else AddTransitions(AddTransition(s, edges[0].0, edges[0].1).next, edges[1..])
  }

  /** The destination of the first acceptable edge for `t` in `edges`, or `NullStateID`. */
  function FirstEdge(edges: seq<(Transition, StateID)>, t: Transition): StateID
    decreases |edges|
  {
    if |edges| == 0 || t == NullTransition then NullStateID
    else if edges[0].0 == t && edges[0].1 != NullStateID then edges[0].1
    else FirstEdge(edges[1..], t)
  }

  /**
   Registering a list of edges keeps the first acceptable edge for each
   transition: an edge already in the table, or registered earlier, wins over
   every later one, and sentinel edges are dropped.
   */
  lemma {:induction false} AddTransitionsFirstWins(s: NPCState, edges: seq<(Transition, StateID)>, t: Transition)
    ensures AddTransitions(s, edges).id == s.id
    ensures GetOutputState(AddTransitions(s, edges), t) ==
              if t in s.transitionMap then s.transitionMap[t] else FirstEdge(edges, t)
    decreases |edges|
  {
    if |edges| > 0 {
      var s' := AddTransition(s, edges[0].0, edges[0].1).next;
      AddTransitionsFirstWins(s', edges[1..], t);
    }
  }

  /** Registering a list of edges on a well-formed table keeps it well-formed. */
  lemma {:induction false} AddTransitionsWellFormed(s: NPCState, edges: seq<(Transition, StateID)>)
    requires WellFormedTable(s.transitionMap)
    ensures WellFormedTable(AddTransitions(s, edges).transitionMap)
    decreases |edges|
  {
    if |edges| > 0 {
      AddTransitionsWellFormed(AddTransition(s, edges[0].0, edges[0].1).next, edges[1..]);
    }
  }
}
