/**
 The base state entity of the state machine and the id counter that every
 state of one context type draws its identifier from.
 */
module States {

  /** The concrete subclass a state was built from. The handler's runtime type
      test (`States[i] is T_StateType`) becomes a comparison of variants. */
  type Variant = string

  /** The static `nextAvailableID` counter of `ww_State<T>`. A generic class
      keeps one static field per context type `T`, so one allocator stands for
      the counter of one context type, and every handler of that context type
      is meant to be given the same allocator. The model does not enforce that,
      and `next` is writable by any client, whereas the C# field is private and
      written only by the state constructor. */
  class IdAllocator {
    var next: nat

    /** The counter starts at zero. */
    constructor ()
      ensures next == 0
    {
      next := 0;
    }

    /** `nextAvailableID++`: hands out the current value and moves past it. */
    method Issue() returns (id: nat)
      modifies this
      ensures id == old(next)
      ensures next == old(next) + 1
    {
      id := next;
      next := next + 1;
    }
  }

  /** A state: an immutable id and name, the variant it was built as, and a
      settable back-reference to the context it works on. */
  class State {
    /** The private `id`, exposed read-only as `StateID`; written only here. */
    const StateID: nat
    /** The protected `stateName` a variant's constructor sets, read as `StateName`. */
    const StateName: string
    /** The runtime type of the state. */
    const Kind: Variant
    /** The auto-property `Context`: a plain reference that anyone may read or write. */
    var Context: object?

    /** Construction takes the next id from its context type's counter and leaves the
        context unbound. */
    constructor (alloc: IdAllocator, kind: Variant, name: string)
      modifies alloc
      ensures StateID == old(alloc.next)
      ensures alloc.next == old(alloc.next) + 1
      ensures Kind == kind && StateName == name
      ensures Context == null
    {
      var id := alloc.Issue();
      StateID := id;
      StateName := name;
      Kind := kind;
      Context := null;
    }

    /** The default enter hook does nothing. */
    method EnterState()
      ensures unchanged(this)
    {
    }

    /** The default per-tick hook does nothing. */
    method ExecuteState()
      ensures unchanged(this)
    {
    }

    /** The default exit hook does nothing. */
    method ExitState()
      ensures unchanged(this)
    {
    }
  }
}
