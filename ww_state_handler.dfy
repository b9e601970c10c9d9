/**
 The registry of active states for one context: adding a state of a requested
 variant, the per-tick pass over the active list, removal by identity, by
 variant and of everything, and starting or resetting the machine.
 */
module StateHandler {
  import opened States
  import opened HandlerSpec

  /** What `AddState` hands back: the new state, or a failure when the factory
      has no constructor for the requested variant. */
  datatype AddResult = Added(state: State) | ConstructionFailure

  class Handler {
    /** The id counter of this handler's context type, which every state it
        builds draws from. */
    const alloc: IdAllocator
    /** Which variants can be built, and the name each one's constructor gives it. */
    const factory: map<Variant, string>
    /** The variant `StartMachine` adds. */
    const startVariant: Variant
    /** The active states, in insertion order. */
    var states: seq<State>
    /** Every hook call this handler has made, oldest first. */
    ghost var trace: seq<Event>

    /** Every active state is bound to this handler and has an id the counter
        has already issued, and no two active states share an id. */
    ghost predicate Valid()
      reads this, alloc, states
    {
      && (forall x :: x in states ==> x.Context == this && x.StateID < alloc.next)
      && UniqueIds(states)
    }

    /** A handler starts with no active states and no hook calls. The start
        variant need not be one the factory can build. */
    constructor (alloc: IdAllocator, factory: map<Variant, string>, startVariant: Variant)
      ensures Valid()
      ensures this.alloc == alloc && this.factory == factory && this.startVariant == startVariant
      ensures states == [] && trace == []
    {
      this.alloc := alloc;
      this.factory := factory;
      this.startVariant := startVariant;
      states := [];
      trace := [];
    }

    /** Builds a state of variant `kind`, binds it to this handler, appends it to
        the active list and then calls its enter hook, exactly once. */
    method AddState(kind: Variant) returns (r: AddResult)
      requires Valid()
      modifies this, alloc
      ensures Valid()
      ensures kind !in factory ==>
        && r == ConstructionFailure
        && states == old(states) && trace == old(trace) && alloc.next == old(alloc.next)
      ensures kind in factory ==>
        && r.Added? && fresh(r.state)
        && r.state.StateID == old(alloc.next) && alloc.next == old(alloc.next) + 1
        && r.state.Kind == kind && r.state.StateName == factory[kind]
        && r.state.Context == this
        && states == old(states) + [r.state]
        && trace == old(trace) + [Entered(r.state.StateID, this, true)]
    {
      if kind !in factory {
        return ConstructionFailure;
      }
      var s := new State(alloc, kind, factory[kind]);
      s.Context := this;
      states := states + [s];
      trace := trace + [Entered(s.StateID, s.Context, s in states)];
      s.EnterState();
      r := Added(s);
    }

    /** One tick: calls every active state's execute hook once, in index order. */
    method UpdateStates()
      requires Valid()
      modifies this
      ensures Valid()
      ensures states == old(states)
      ensures trace == old(trace) + Executions(states)
    {
      var i := 0;
      while i < |states|
        invariant 0 <= i <= |states|
        invariant states == old(states)
        invariant trace == old(trace) + Executions(states[..i])
      {
        states[i].ExecuteState();
        trace := trace + [Executed(states[i].StateID)];
        i := i + 1;
      }
      assert states[..i] == states;
    }

    /** Removes the first active state with the id of `aState`. The exit hook of
        `aState` runs before the search, so it runs even when nothing matches,
        and it runs while a matching entry is still listed; a null argument does
        nothing and reports false. */
    method RemoveState(aState: State?, callExit: bool := true) returns (removed: bool)
      requires Valid()
      modifies this
      ensures Valid()
      ensures aState == null ==> !removed && states == old(states) && trace == old(trace)
      ensures aState != null ==>
        && removed == (FindId(old(states), aState.StateID) < |old(states)|)
        && states == WithoutId(old(states), aState.StateID)
        && trace == old(trace) + (if callExit then [Exited(aState.StateID, removed)] else [])
    {
      if aState == null {
        return false;
      }
      ghost var k := FindId(states, aState.StateID);
      if callExit {
        aState.ExitState();
        trace := trace + [Exited(aState.StateID, k < |states|)];
      }
      WithoutIdMembers(states, aState.StateID);
      WithoutIdUnique(states, aState.StateID);
      var i := 0;
      while i < |states|
        invariant 0 <= i <= k
        invariant states == old(states)
      {
        if states[i].StateID == aState.StateID {
          assert i == k;
          states := states[..i] + states[i + 1..];
          return true;
        }
        i := i + 1;
      }
      return false;
    }

    /** Removes every active state of variant `kind`, scanning from the last
        index down; with `callExit` each removed state's exit hook runs just
        before it is removed. */
    method RemoveStatesOfType(kind: Variant, callExit: bool := false)
      requires Valid()
      modifies this
      ensures Valid()
      ensures states == WithoutVariant(old(states), kind)
      ensures trace == old(trace) + (if callExit then ExitsDescending(old(states), kind) else [])
    {
      ghost var s0, t0 := states, trace;
      var i := |states| - 1;
      while i >= 0
        invariant -1 <= i < |s0|
        invariant states == s0[..i + 1] + WithoutVariant(s0[i + 1..], kind)
        invariant callExit ==> trace == t0 + ExitsDescending(s0[i + 1..], kind)
        invariant !callExit ==> trace == t0
      {
        BackwardScanStep(s0, i, kind);
        assert states[i] == s0[i];
        if states[i].Kind == kind {
          if callExit {
            states[i].ExitState();
            trace := trace + [ExitOf(states, i)];
          }
          states := states[..i] + states[i + 1..];
        }
        i := i - 1;
      }
      assert s0[0..] == s0;
      WithoutVariantUnique(s0, kind);
      WithoutVariantMembers(s0, kind);
    }

    /** Empties the active list, as the code is written: the flag is accepted
        and ignored, so no exit hook runs whatever its value. */
    method RemoveAllSates(callExitFunction: bool)
      requires Valid()
      modifies this
      ensures Valid()
      ensures states == [] && trace == old(trace)
    {
      states := [];
    }

    /** Empties the active list as its documentation promises: with `callExit`
        every active state's exit hook runs first, in index order. */
    method RemoveAllStates(callExit: bool)
      requires Valid()
      modifies this
      ensures Valid()
      ensures states == []
      ensures trace == old(trace) + (if callExit then ExitsInOrder(old(states)) else [])
    {
      if callExit {
        var i := 0;
        while i < |states|
          invariant 0 <= i <= |states|
          invariant states == old(states)
          invariant trace == old(trace) + ExitsInOrder(states[..i])
        {
          states[i].ExitState();
          trace := trace + [ExitOf(states, i)];
          i := i + 1;
        }
        assert states[..i] == states;
      }
      states := [];
    }

    /** Adds one state of the start variant; when the factory cannot build it,
        nothing changes. */
    method StartMachine()
      requires Valid()
      modifies this, alloc
      ensures Valid()
      ensures startVariant !in factory ==>
        states == old(states) && trace == old(trace) && alloc.next == old(alloc.next)
      ensures startVariant in factory ==>
        && |states| == |old(states)| + 1 && states[..|old(states)|] == old(states)
        && var s := states[|states| - 1];
        && fresh(s) && s.Kind == startVariant && s.StateName == factory[startVariant]
        && s.StateID == old(alloc.next)
        && s.Context == this && alloc.next == old(alloc.next) + 1
        && trace == old(trace) + [Entered(s.StateID, this, true)]
    {
      var _ := AddState(startVariant);
    }

    /** Clears the active list without exit hooks and, when asked, starts again
        with a single state of the start variant. */
    method ResetMachine(startAfterReset: bool := true)
      requires Valid()
      modifies this, alloc
      ensures Valid()
      ensures startAfterReset && startVariant in factory ==>
        && |states| == 1 && fresh(states[0]) && states[0].Kind == startVariant
        && states[0].StateName == factory[startVariant]
        && states[0].StateID == old(alloc.next) && alloc.next == old(alloc.next) + 1
        && trace == old(trace) + [Entered(states[0].StateID, this, true)]
      ensures !(startAfterReset && startVariant in factory) ==>
        states == [] && trace == old(trace) && alloc.next == old(alloc.next)
    {
      RemoveAllStates(false);
      if startAfterReset {
        StartMachine();
      }
    }
  }
}

/** Clients of the handler, checked against its contracts alone. */
module HandlerClient {
  import opened States
  import opened HandlerSpec
  import opened StateHandler

  /** A sample session: start the machine, add an `Attack` state, remove the
      start variant, run one tick, then remove the same state twice. */
  method StartAttackTick()
  {
    var alloc := new IdAllocator();
    var h := new Handler(alloc, map["Idle" := "idle", "Attack" := "attack"], "Idle");
    h.StartMachine();
    var idle := h.states[0];
    assert idle.StateID == 0 && idle.StateName == "idle";
    var r := h.AddState("Attack");
    var attack := r.state;
    assert attack.StateID == 1 && h.states == [idle, attack];
    h.RemoveStatesOfType("Idle");
    assert h.states == [attack];
    ghost var before := h.trace;
    h.UpdateStates();
    assert h.trace == before + [Executed(1)];
    var again := h.RemoveState(attack);
    assert again;
    again := h.RemoveState(attack);
    assert !again && h.states == [];
  }

  /** With a state active, the flag of `RemoveAllSates` changes nothing, while
      the corrected `RemoveAllStates` runs the exit hook it documents. */
  method ClearWithExit()
  {
    var alloc := new IdAllocator();
    var h := new Handler(alloc, map["Idle" := "idle"], "Idle");
    h.StartMachine();
    ghost var before := h.trace;
    h.RemoveAllSates(true);
    assert h.trace == before;
    h.StartMachine();
    var idle2 := h.states[0];
    before := h.trace;
    h.RemoveAllStates(true);
    assert h.trace == before + [Exited(idle2.StateID, true)];
  }

  /** One case of two handlers given the same counter: their start states get
      different ids. */
  method TwoHandlers()
  {
    var alloc := new IdAllocator();
    var h1 := new Handler(alloc, map["Idle" := "idle"], "Idle");
    var h2 := new Handler(alloc, map["Idle" := "idle"], "Idle");
    h1.StartMachine();
    h2.StartMachine();
    assert h1.states[0].StateID < h2.states[0].StateID;
  }
}
