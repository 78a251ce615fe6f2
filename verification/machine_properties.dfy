/**
 Properties of the state manager that relate several calls: a setup phase of
 `AddState` calls, a run of `PerformTransition` calls and the hook trace it
 produces, and what deleting the current state does to the manager.
 */
module MachineProperties {
  import opened Wrappers
  import opened Identifiers
  import opened Diagnostics
  import opened NPCStates
  import opened NPCStateManagers

  // ---------------------------------------------------------------------------
  // Setup: a sequence of AddState calls
  // ---------------------------------------------------------------------------

  /** Registers `ss` one after another, in order. */
  function AddAll(m: NPCStateManager, ss: seq<NPCState>): NPCStateManager
    decreases |ss|
  {
    if |ss| == 0 then m
    else AddState(AddAll(m, ss[..|ss| - 1]), ss[|ss| - 1]).next
  }

  /** The members of `ss` whose id no earlier member has, in their order in `ss`. */
  function FirstSeen(ss: seq<NPCState>): seq<NPCState>
    decreases |ss|
  {
    if |ss| == 0 then []
    else
      var prefix := ss[..|ss| - 1];
      FirstSeen(prefix) + (if HasId(prefix, ss[|ss| - 1].id) then [] else [ss[|ss| - 1]])
  }

  /** `FirstSeen` keeps one member per id of its input, and no other. */
  lemma {:induction false} FirstSeenIds(ss: seq<NPCState>)
    ensures UniqueIds(FirstSeen(ss))
    ensures forall id :: HasId(FirstSeen(ss), id) <==> HasId(ss, id)
    ensures |FirstSeen(ss)| == 0 <==> |ss| == 0
    ensures |ss| > 0 ==> FirstSeen(ss)[0] == ss[0]
    decreases |ss|
  {
    if |ss| > 0 {
      var prefix := ss[..|ss| - 1];
      var last := ss[|ss| - 1];
      FirstSeenIds(prefix);
      var fs := FirstSeen(prefix);
      var tail := if HasId(prefix, last.id) then [] else [last];
      assert FirstSeen(ss) == fs + tail;
      forall id
        ensures HasId(FirstSeen(ss), id) <==> HasId(ss, id)
      {
        if HasId(ss, id) {
          var k :| 0 <= k < |ss| && ss[k].id == id;
          if k < |ss| - 1 {
            assert prefix[k] == ss[k];
            assert HasId(prefix, id);
            var j :| 0 <= j < |fs| && fs[j].id == id;
            assert (fs + tail)[j] == fs[j];
          } else if HasId(prefix, last.id) {
            assert HasId(fs, id);
            var j :| 0 <= j < |fs| && fs[j].id == id;
            assert (fs + tail)[j] == fs[j];
          } else {
            assert (fs + tail)[|fs|] == last;
          }
        }
        if HasId(FirstSeen(ss), id) {
          var j :| 0 <= j < |fs + tail| && (fs + tail)[j].id == id;
          if j < |fs| {
            assert fs[j].id == id;
            assert HasId(fs, id);
            var k :| 0 <= k < |prefix| && prefix[k].id == id;
            assert ss[k] == prefix[k];
          } else {
            assert ss[|ss| - 1].id == id;
          }
        }
      }
      if |prefix| == 0 {
        assert ss == [last];
        assert !HasId(prefix, last.id);
      } else {
        assert prefix[0] == ss[0];
      }
    }
  }

  /**
   A setup phase from a fresh manager keeps exactly the first-seen member of
   every id, in first-seen order, never replacing an earlier member by a later
   one with the same id; and the first state added is the current one.
   */
  lemma {:induction false} AddAllFromEmpty(ss: seq<NPCState>)
    ensures AddAll(Empty(), ss).states == FirstSeen(ss)
    ensures UniqueIds(AddAll(Empty(), ss).states)
    ensures forall id :: HasId(AddAll(Empty(), ss).states, id) <==> HasId(ss, id)
    ensures |ss| > 0 ==>
              && AddAll(Empty(), ss).currentState == Some(ss[0])
              && AddAll(Empty(), ss).currentStateID == ss[0].id
              && Consistent(AddAll(Empty(), ss))
    decreases |ss|
  {
    FirstSeenIds(ss);
    if |ss| > 0 {
      var prefix := ss[..|ss| - 1];
      var last := ss[|ss| - 1];
      AddAllFromEmpty(prefix);
      FirstSeenIds(prefix);
      var before := AddAll(Empty(), prefix);
      if |prefix| == 0 {
        assert ss == [last];
        assert FirstSeen(ss) == [last];
      } else {
        assert prefix[0] == ss[0];
      }
    }
  }

  /** `FirstSeen` of a list whose ids are already distinct is the list itself. */
  lemma {:induction false} FirstSeenOfDistinct(ss: seq<NPCState>)
    requires UniqueIds(ss)
    ensures FirstSeen(ss) == ss
    decreases |ss|
  {
    if |ss| > 0 {
      var prefix := ss[..|ss| - 1];
      assert UniqueIds(prefix) by {
        forall i, j | 0 <= i < j < |prefix|
          ensures prefix[i].id != prefix[j].id
        {
          assert prefix[i] == ss[i] && prefix[j] == ss[j];
        }
      }
      FirstSeenOfDistinct(prefix);
      assert !HasId(prefix, ss[|ss| - 1].id);
      assert ss == prefix + [ss[|ss| - 1]];
    }
  }

  /** Registering states with distinct ids keeps all of them, in the order they were added. */
  lemma AddAllDistinct(ss: seq<NPCState>)
    requires UniqueIds(ss)
    ensures AddAll(Empty(), ss).states == ss
  {
    AddAllFromEmpty(ss);
    FirstSeenOfDistinct(ss);
  }

  // ---------------------------------------------------------------------------
  // Runs: a sequence of PerformTransition calls
  // ---------------------------------------------------------------------------

  /** What a run of transitions leaves behind: the manager and every hook fired, in order. */
  datatype Ran = Ran(next: NPCStateManager, hooks: seq<Hook>)

  /** Fires `ts` one after another from `m`. */
  function Run(m: NPCStateManager, ts: seq<Transition>): (r: Ran)
    requires m.currentState.Some?
    ensures r.next.currentState.Some?
    ensures r.next.states == m.states
    decreases |ts|
  {
    if |ts| == 0 then Ran(m, [])
    else
      var step := PerformTransition(m, ts[0]);
      var rest := Run(step.next, ts[1..]);
      Ran(rest.next, step.hooks + rest.hooks)
  }

  /**
   `hooks` is a sequence of exit/enter pairs that starts by leaving `from`,
   where each pair leaves the state the previous pair entered, and that ends
   in `to`: no state is ever left without first having been entered, and no
   two states are active at once.
   */
  ghost predicate Chain(from: StateID, hooks: seq<Hook>, to: StateID)
    decreases |hooks|
  {
    if |hooks| == 0 then from == to
    else
      && |hooks| >= 2
      && hooks[0] == OnStateExit(from)
      && hooks[1].OnStateEntered?
      && Chain(hooks[1].id, hooks[2..], to)
  }

  /**
   Whatever transitions are fired, and whatever the tables say, the hooks of a
   run form a chain from the state current before it to the state current
   after it: every exit is of the state last entered, and is followed by
   exactly one enter.
   */
  lemma {:induction false} RunHooksChain(m: NPCStateManager, ts: seq<Transition>)
    requires m.currentState.Some?
    ensures Chain(m.currentState.value.id, Run(m, ts).hooks, Run(m, ts).next.currentState.value.id)
    decreases |ts|
  {
    if |ts| > 0 {
      var step := PerformTransition(m, ts[0]);
      var rest := Run(step.next, ts[1..]);
      RunHooksChain(step.next, ts[1..]);
      if step.hooks != [] {
        var h := step.hooks + rest.hooks;
        assert h[0] == step.hooks[0] && h[1] == step.hooks[1];
        assert h[2..] == rest.hooks;
      } else {
        assert step.hooks + rest.hooks == rest.hooks;
      }
    }
  }

  /** Every edge of every member leads to a member: no table refers to a missing state. */
  predicate Closed(m: NPCStateManager)
  {
    forall i, t :: 0 <= i < |m.states| && t in m.states[i].transitionMap ==>
      HasId(m.states, m.states[i].transitionMap[t])
  }

  /** In a closed machine a transition keeps the current state and its id in agreement. */
  lemma PerformTransitionKeepsConsistent(m: NPCStateManager, t: Transition)
    requires Consistent(m) && Closed(m)
    ensures Consistent(PerformTransition(m, t).next)
  {
  }

  /** In a closed machine every run keeps the current state and its id in agreement. */
  lemma {:induction false} RunKeepsConsistent(m: NPCStateManager, ts: seq<Transition>)
    requires Consistent(m) && Closed(m)
    ensures Consistent(Run(m, ts).next)
    decreases |ts|
  {
    if |ts| > 0 {
      PerformTransitionKeepsConsistent(m, ts[0]);
      var step := PerformTransition(m, ts[0]);
      assert Closed(step.next);
      RunKeepsConsistent(step.next, ts[1..]);
    }
  }

  // ---------------------------------------------------------------------------
  // Deleting the current state
  // ---------------------------------------------------------------------------

  /**
   Deleting the current state is accepted, and leaves the manager pointing at a
   state that is no longer a member.
   */
  lemma DeleteCurrentDangles(m: NPCStateManager)
    requires Consistent(m) && UniqueIds(m.states)
    requires m.currentStateID != NullStateID
    ensures DeleteState(m, m.currentStateID).status == Ok
    ensures !Consistent(DeleteState(m, m.currentStateID).next)
    ensures DeleteState(m, m.currentStateID).next.currentState == m.currentState
  {
  }
}
