# NPC finite-state machine

A Dafny model of the finite-state machine that drives a non-player character
in `Assets/Scripts/Scene_2/States/NPCStateManager.cs`. The model has two parts.

- **`NPCState`** is one node of the machine. It has a `StateID` and a transition
  table, a `map<Transition, StateID>`. `AddTransition` registers an edge,
  `DeleteTransition` removes one, and `GetOutputState` looks one up. It returns
  `NullStateID` when there is no edge.
- **`NPCStateManager`** holds an ordered list of states with distinct ids, plus
  the two fields behind `CurrentStateID` and `CurrentState`. The C# class keeps
  these as separate fields, and so does the model, because the source lets them
  disagree. `AddState`, `DeleteState` and `PerformTransition` are pure functions.
  Each returns the new manager and what it would have logged. `PerformTransition`
  also returns the lifecycle hooks it fired, as a trace of
  `OnStateExit(id)` / `OnStateEntered(id)` events.

`StateID` and `Transition` are C# enums whose members are not part of this
model. Each is a datatype: a sentinel (`NullStateID`, `NullTransition`) plus
real values numbered by a `nat`. Every `Debug.LogError` call becomes a
`Diagnostics.Error` tag. An operation returns `Ok` when nothing would have
been logged.

Modules, leaf first:
- `Wrappers`: `Option`.
- `Identifiers`: the two identifier types.
- `Diagnostics`: error tags and the step result.
- `NPCStates`: the state and its table.
- `NPCStateManagers`: the manager.
- `MachineProperties`: properties over several calls.
- `Scenarios`: an idle/patrol NPC.

Behaviours of the source that the model keeps as written:
- `AddState` makes a state current whenever the list is EMPTY (line 27). This
  also happens when earlier deletions emptied the list, not only for the first
  state ever added.
- In `PerformTransition`, `currentStateID` is assigned (line 81) before the
  search for a member with that id. If no member has the id, the id changes and
  the current state does not. No hook fires and nothing is logged. The model
  reproduces this, and `Scenarios.TransitionToDeletedStateDiverges` exhibits it.
- `DeleteState` may remove the current state. The current state and its id are
  left as they were (`MachineProperties.DeleteCurrentDangles`).
- A fresh manager's `currentStateID` is the enum's default value. The model
  takes that to be `NullStateID`.

## Model

| member | source | states |
|---|---|---|
| NPCStates.NewState | Assets/Scripts/Scene_2/States/NPCStateManager.cs:100-102 | A new state has the given id and an empty, well-formed table, so every lookup answers `NullStateID`. |
| NPCStates.AddTransition | Assets/Scripts/Scene_2/States/NPCStateManager.cs:107-129 | The sentinel transition, then the sentinel destination, then an existing key are refused, each with its own log tag, and the table is left unchanged. Otherwise exactly the entry `transition -> id` is added and every old entry is kept. It succeeds iff the state changed, and it keeps a well-formed table well-formed. |
| NPCStates.DeleteTransition | Assets/Scripts/Scene_2/States/NPCStateManager.cs:131-146 | The sentinel and an absent key are refused, and the table is unchanged. Otherwise exactly that key is removed and every other entry is untouched. It succeeds iff the state changed, and it keeps a well-formed table well-formed. |
| NPCStates.GetOutputState | Assets/Scripts/Scene_2/States/NPCStateManager.cs:148-155 | On any table, a registered key answers its destination, and a non-null answer is always a registered destination. On a well-formed table, the answer is `NullStateID` iff there is no edge, which is always so for `NullTransition`. |
| NPCStates.AddThenGet | Assets/Scripts/Scene_2/States/NPCStateManager.cs:107-155 | After a successful `AddTransition(t, d)`, `GetOutputState(t) == d`. Every other lookup is unchanged. |
| NPCStates.DeleteThenGet | Assets/Scripts/Scene_2/States/NPCStateManager.cs:131-155 | After a successful `DeleteTransition(t)`, `GetOutputState(t)` is `NullStateID`. Every other lookup is unchanged. |
| NPCStates.AddThenDelete | Assets/Scripts/Scene_2/States/NPCStateManager.cs:107-146 | Deleting an edge just added succeeds and gives back the original state. |
| NPCStates.DeleteThenAdd | Assets/Scripts/Scene_2/States/NPCStateManager.cs:107-146 | Re-adding an edge just deleted, with its old destination, succeeds and gives back the original state. |
| NPCStates.AddTransitionsFirstWins | Assets/Scripts/Scene_2/States/NPCStateManager.cs:107-129 | After any series of `AddTransition` calls, each transition leads where its existing edge pointed. With no existing edge, it leads to the destination of the first non-sentinel edge registered for it. Later duplicates never replace it. |
| NPCStates.AddTransitionsWellFormed | Assets/Scripts/Scene_2/States/NPCStateManager.cs:107-129 | After any series of `AddTransition` calls, the table still has no `NullTransition` key and no `NullStateID` destination. |
| NPCStateManagers.Empty | Assets/Scripts/Scene_2/States/NPCStateManager.cs:8-18 | A new manager has no states and no current state. Its current id is `NullStateID`, the assumed default of the enum. |
| NPCStateManagers.Find | Assets/Scripts/Scene_2/States/NPCStateManager.cs:54-61 | The search loop returns the position of the first member with the id. It returns none iff no member has it. |
| NPCStateManagers.AddState | Assets/Scripts/Scene_2/States/NPCStateManager.cs:20-44 | Into an empty list, it yields `[s]` with `s` current, id and state, and no hook fires. Into a non-empty list, a duplicate id is refused and nothing changes. Otherwise `s` is appended at the end. On this path the current state and its id never change. Distinct ids stay distinct, and no id is lost. |
| NPCStateManagers.DeleteState | Assets/Scripts/Scene_2/States/NPCStateManager.cs:46-63 | The sentinel and an unknown id are refused, and the list is unchanged. Otherwise exactly the member with that id is removed and the rest keep their order. The current state and its id are never touched. Other ids stay present iff they were, and with distinct ids the deleted id is gone. |
| NPCStateManagers.PerformTransition | Assets/Scripts/Scene_2/States/NPCStateManager.cs:65-95 | The sentinel changes nothing and fires no hook, even on a manager with no current state. So does a transition whose lookup on the current state answers `NullStateID`, whether it has no edge or an edge to `NullStateID`; both are logged as having no next state. An edge to a member fires exactly `OnStateExit(old)` then `OnStateEntered(B)`, and afterwards the id and the state both name `B`. An edge to an id no member has changes only `currentStateID`. The list never changes. From a consistent manager, the result is consistent iff the target, if any, is a member. |
| MachineProperties.FirstSeenIds | Assets/Scripts/Scene_2/States/NPCStateManager.cs:35-43 | Keeping the first member of each id yields distinct ids, exactly the ids of the input, and the input's first member first. |
| MachineProperties.AddAllFromEmpty | Assets/Scripts/Scene_2/States/NPCStateManager.cs:20-44 | A series of `AddState` calls on a fresh manager keeps exactly the first-seen member of each id, in first-seen order. Ids stay distinct. The first state added is current, and the manager is consistent. |
| MachineProperties.AddAllDistinct | Assets/Scripts/Scene_2/States/NPCStateManager.cs:20-44 | States with distinct ids are all kept, in the order they were added. |
| MachineProperties.RunHooksChain | Assets/Scripts/Scene_2/States/NPCStateManager.cs:65-95 | Over any series of transitions, the hook trace is a chain of exit/enter pairs. It starts by leaving the initial current state, and each pair leaves the state the previous pair entered. It ends at the final current state. Each exit is of the state last entered, or of the initial one, and each exit is followed by exactly one enter. |
| MachineProperties.PerformTransitionKeepsConsistent | Assets/Scripts/Scene_2/States/NPCStateManager.cs:73-93 | When every edge leads to a member, a transition keeps the current state a member that agrees with the current id. |
| MachineProperties.RunKeepsConsistent | Assets/Scripts/Scene_2/States/NPCStateManager.cs:65-95 | When every edge leads to a member, any series of transitions keeps the manager consistent. |
| MachineProperties.DeleteCurrentDangles | Assets/Scripts/Scene_2/States/NPCStateManager.cs:46-63 | Deleting the current state succeeds, and afterwards the current state is no longer a member. |
| Scenarios.SawPlayerMovesToPatrol | Assets/Scripts/Scene_2/States/NPCStateManager.cs:65-95 | With idle (edge to patrol) and patrol registered, the edge moves the current id to patrol. It fires exit of idle then enter of patrol, once each. |
| Scenarios.LostPlayerIsRefused | Assets/Scripts/Scene_2/States/NPCStateManager.cs:73-79 | A transition with no edge from idle is logged as missing. Nothing changes and no hook fires. |
| Scenarios.NullTransitionOnFreshManager | Assets/Scripts/Scene_2/States/NPCStateManager.cs:65-71 | On a fresh manager with no current state, the sentinel transition is logged as not allowed. The manager and its current id are unchanged. |
| Scenarios.EdgeToNullIsRefused | Assets/Scripts/Scene_2/States/NPCStateManager.cs:73-79 | A current state whose table maps the transition to `NullStateID` is logged as having no next state. The manager is unchanged and no hook fires. |
| Scenarios.DuplicateAddIsRefused | Assets/Scripts/Scene_2/States/NPCStateManager.cs:35-42 | Adding idle twice is logged as a duplicate, and the list keeps one member. |
| Scenarios.DeleteMissingIsRefused | Assets/Scripts/Scene_2/States/NPCStateManager.cs:54-62 | Deleting an id no member has is logged, and the manager is unchanged. |
| Scenarios.TransitionToDeletedStateDiverges | Assets/Scripts/Scene_2/States/NPCStateManager.cs:81-93 | After patrol is deleted, the edge to patrol sets the current id to patrol. The current state stays idle and no hook fires, so the manager is no longer consistent. |

## Left out

- Logging: `Debug.LogError` is engine I/O. Only which message would be written is modelled, as an error tag; the message text is not.
- `AddState(null)`: the source logs this and then dereferences the null state (lines 22-31, 37). States in the model are values, so there is no null state.
- `PerformTransition` with a real transition on a manager with no current state dereferences null (line 73). It is excluded by the precondition `transition == NullTransition || currentState.Some?`. The sentinel transition returns at lines 67-71 before that line, so the model accepts it on any manager.
- The `player` and `npc` engine handles (line 105) and the unused private `NPCState.currentState` field (lines 103-104) play no role in the state machine.
- `TransitionCondition()` and `StateUpdate()` are abstract, and concrete states supply them. The bodies of overridden `OnStateEntered`/`OnStateExit` are also supplied by concrete states. Hooks appear only as trace events.
- Per-frame scheduling that drives the updates is external to the machine.
- Object aliasing: in C#, the list and `currentState` hold references. A table edited after registration is seen through both. The model holds states as values, so tables are configured before `AddState`. `states.Remove(state)` removes by reference; with distinct ids this is the member the search found, and the model removes that one.
- The members of the `StateID` and `Transition` enums are not part of this model. The zero value of `StateID`, which a fresh manager's id field holds, is taken to be `NullStateID`.
