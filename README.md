# Generic state machine: active-state registry

A Dafny model of a small state-machine library. A registry (`ww_StateHandler`)
keeps an ordered list of *active states* for one context object. It can
- add a state of a requested variant, which gets a fresh id and is bound to the context before its enter hook runs;
- call every active state's execute hook once per tick, in list order;
- remove a state by id, every state of a variant, or all states;
- start the machine with its start variant, or reset it.

Every state (`ww_State<T>`) takes its id from the static counter
`nextAvailableID`. C# keeps one such static field per context type `T`, so the
source has one counter per context type, not one per process. Ids are unique
among the states of one context type, and so within one handler. Handlers of
different context types each count from 0, so their ids can repeat. In the
model one `IdAllocator` object stands for the counter of one context type, and
every handler of that context type is meant to be given the same allocator.
Ids stay distinct only while those handlers share the allocator and no client
writes its counter. The model enforces neither (see "Left out").

The model has three modules:

- `States` (`ww_state.dfy`): the counter of one context type as the class `IdAllocator`, and the state as the class `State`.
  - `StateID` and `StateName` are `const` fields, so the getters return what the constructor stored. `Kind` is the variant the state was built as. For `StateName` this is a simplification: in C# `stateName` is a protected, writable field that a variant may reassign, and variants are not modelled.
  - `Context` is a plain mutable field. Reading it returns the last value written.
  - The three hooks are no-op methods.
- `HandlerSpec` (`handler_spec.dfy`) holds what each operation does to the active list and to the sequence of hook calls, written as functions on `seq<State>`:
  - `FindId`, `WithoutId`, `WithoutVariant`, `ExitsDescending`, `Executions`, `ExitsInOrder`, and `ExitOf`, the exit call for one listed entry;
  - the lemmas that say what these functions mean.

  Hook calls are `Event`s: `Entered`, `Executed` and `Exited`. `Entered` also records the state's context. `Entered` and `Exited` record whether an entry with the state's id was in the active list when the hook ran. So the contracts can say that a state is listed before it enters, and is still listed when it exits.
- `StateHandler` (`ww_state_handler.dfy`): the registry as the class `Handler`.
  - Its `states` field holds the list and is reassigned in place. The ghost field `trace` holds every hook call the handler has made.
  - `Valid()` is the object invariant: every active state is bound to this handler, every id was already issued by the handler's counter, and no two active states share an id.
  - Each method's postcondition gives the new list and the new trace in terms of the old ones, using the `HandlerSpec` functions.
  - The module `HandlerClient` has three clients, checked against the contracts alone:
    - a sample session: start the machine, add an `Attack` state, remove the start variant, run one tick, then remove the same state twice;
    - the clear with and without exit calls;
    - one case of two handlers given the same counter, whose start states get different ids.

Runtime type tests and reflection become plain data:
- The type test `States[i] is T` becomes a comparison of the `Kind` tag.
- Construction by reflection becomes a factory `map<Variant, string>`. It maps each variant that can be built to the name its constructor gives. A variant the factory does not know gives `ConstructionFailure` instead of the exception C# raises.
- The cast `this as T_Context` is modelled as the handler itself. `Context` is bound to the handler.

## Model

| member | source | states |
|---|---|---|
| `States.IdAllocator.constructor` | ww_State.cs:15 | the counter of a context type starts at 0 |
| `States.IdAllocator.Issue` | ww_State.cs:20 | post-increment: returns the counter's old value and increments the counter by exactly one |
| `States.State.constructor` | ww_State.cs:13-29 | a new state's `StateID` is the counter's value before construction and the counter grows by one; `StateName` is the name given to it; its context starts unbound |
| `States.State.EnterState` | ww_State.cs:31-34 | the default enter hook changes nothing |
| `States.State.ExecuteState` | ww_State.cs:36-39 | the default execute hook changes nothing |
| `States.State.ExitState` | ww_State.cs:41-44 | the default exit hook changes nothing |
| `HandlerSpec.FindId` | ww_StateHandler.cs:74-81 | the search's result is the first index whose id matches; every earlier entry has another id; `|s|` means no entry matches |
| `HandlerSpec.WithoutId` | ww_StateHandler.cs:74-84 | the list without its first entry with the id: one entry shorter when an entry has the id, unchanged in length when none does, and every entry before the first match stays where it was |
| `HandlerSpec.WithoutIdShape` | ww_StateHandler.cs:74-84 | removal by id removes exactly one entry, the first match, and every other entry keeps its relative order; with no match the list is unchanged |
| `HandlerSpec.WithoutIdMembers` | ww_StateHandler.cs:74-80 | with unique ids, the entries left after removal by id are exactly those with a different id |
| `HandlerSpec.WithoutIdUnique` | ww_StateHandler.cs:78 | removing one entry keeps ids unique |
| `HandlerSpec.RemoveTwice` | ww_StateHandler.cs:74-84 | with unique ids, a second removal of the same id finds nothing, so it reports false |
| `HandlerSpec.WithoutVariant` | ww_StateHandler.cs:95-105 | filtering out a variant never makes the list longer |
| `HandlerSpec.WithoutVariantMembers` | ww_StateHandler.cs:95-105 | the entries left are exactly those of another variant, and every kept entry comes from the original list |
| `HandlerSpec.WithoutVariantAppend` | ww_StateHandler.cs:95-105 | filtering distributes over concatenation, so kept entries keep their relative order |
| `HandlerSpec.WithoutVariantNoMatch` | ww_StateHandler.cs:95-105 | a list with no entry of the variant is left exactly as it was |
| `HandlerSpec.WithoutVariantUnique` | ww_StateHandler.cs:103 | removing entries by variant keeps ids unique |
| `HandlerSpec.BackwardScanStep` | ww_StateHandler.cs:95-104 | one iteration of the downward scan: looking at index `i` extends the filtered suffix from `i + 1` to `i`, and extends the exit calls so far by the exit of entry `i` when it matches |
| `HandlerSpec.ExitsDescending` | ww_StateHandler.cs:95-100 | one exit call per entry of the variant, the highest index first; there are never more calls than entries, and every call is made while its entry is still listed |
| `HandlerSpec.ExitsDescendingAppend` | ww_StateHandler.cs:95-100 | exit calls run in reverse index order: every matching entry of a later part exits before any matching entry of an earlier part |
| `HandlerSpec.ExitsDescendingCount` | ww_StateHandler.cs:97-103 | exactly one exit call per removed entry |
| `HandlerSpec.ExitsDescendingIds` | ww_StateHandler.cs:97-100 | an exit call for an id happens if and only if some entry of the variant carries that id |
| `HandlerSpec.Executions` | ww_StateHandler.cs:53-54 | a tick makes one execute call per active entry, and the call at position k is for the entry at index k |
| `HandlerSpec.ExitsInOrder` | ww_StateHandler.cs:111 | the documented flag gives one exit call per cleared entry, the call at position k being for the entry at index k |
| `HandlerSpec.ExecutedOnce` | ww_StateHandler.cs:51-55 | with unique ids, every active state's execute hook runs exactly once per tick |
| `HandlerSpec.NotExecuted` | ww_StateHandler.cs:51-55 | a state whose id is not in the list (for example after it was removed) does not execute during a tick |
| `StateHandler.Handler.constructor` | ww_StateHandler.cs:17 | a handler starts with an empty active list and no hook calls; its start variant need not be buildable |
| `StateHandler.Handler.AddState` | ww_StateHandler.cs:26-46 | for a known variant: a fresh state gets the next id and the variant's name, and is bound to the handler. It is appended at the end, and earlier entries keep their positions. Then exactly one enter call follows, and that call sees the state bound and already in the list. For an unknown variant: a failure result, and nothing changes |
| `StateHandler.Handler.UpdateStates` | ww_StateHandler.cs:51-55 | the list is unchanged, and the trace grows by one execute call per entry, in index order |
| `StateHandler.Handler.RemoveState` | ww_StateHandler.cs:63-85 | a null argument reports false, leaves the list unchanged and calls no hook. Otherwise, when `callExit` is set, the argument's exit hook runs before the search, whether or not a match exists. The exit call records that the id is still listed exactly when the removal succeeds. The result is true exactly when an entry has the id, and the list loses exactly the first such entry |
| `StateHandler.Handler.RemoveStatesOfType` | ww_StateHandler.cs:92-106 | the list becomes its entries of other variants, in their original order. With `callExit`, the removed entries' exit hooks run in reverse index order, each while its entry is still listed; without it, no hook runs |
| `StateHandler.Handler.RemoveAllSates` | ww_StateHandler.cs:112-116 | the list is empty afterwards and no hook runs, whatever the flag |
| `StateHandler.Handler.RemoveAllStates` | ww_StateHandler.cs:108-116 | corrected clear: the list is empty afterwards and, with the flag, every cleared entry's exit hook runs once, in index order, while the entry is still listed |
| `StateHandler.Handler.StartMachine` | ww_StateHandler.cs:121-125 | when the factory can build the start variant: appends exactly one fresh state of that variant, with the name the variant's constructor gives, bound to the handler, with the next id, and calls its enter hook once. Otherwise the list, the hook calls and the counter are unchanged |
| `StateHandler.Handler.ResetMachine` | ww_StateHandler.cs:131-139 | no exit hook runs. With `startAfterReset` and a buildable start variant, the list afterwards is exactly one fresh state of the start variant, with that variant's name. Its id is the counter's old value, the counter grows by one, and its enter hook ran once. Otherwise the list is empty and the counter is unchanged |

All methods of `Handler` require and keep `Valid()`. The default arguments of
the C# methods (`callExit = true`, `callExit = false`,
`startAfterReset = true`) are Dafny default parameters.

## Findings

| source | as written | input that shows it | evidently intended | confidence | as-written member | corrected member |
|---|---|---|---|---|---|---|
| ww_StateHandler.cs:111-116 | `RemoveAllSates(bool CallExitFunction)` clears the list and never reads its flag, although its documentation says the flag makes the removed states' exit functions run | a handler with one active state and `RemoveAllSates(true)`: no exit call happens (`HandlerClient.ClearWithExit`) | with the flag set, each cleared state's exit hook runs before the list is emptied | high; not executed | `StateHandler.Handler.RemoveAllSates` | `StateHandler.Handler.RemoveAllStates` |

`ResetMachine` uses the corrected `RemoveAllStates`. Its reset passes `false`
(ww_StateHandler.cs:134), so its behaviour is the same as in the code: no
exit hook runs on reset.

## Left out

- Engine plumbing is not part of this model: the `MonoBehaviour` base class and the generic constraints, `[System.Serializable]`, and the `Debug.Log` call in `AddState` (ww_StateHandler.cs:32).
- `StateHandler.Handler.StartMachine`: where C# throws from `Activator.CreateInstance` because the start type cannot be built (ww_StateHandler.cs:30, 124), the model changes nothing. The same holds for `ResetMachine(true)`, after the clear.
- Reflection is replaced by plain data. `Activator.CreateInstance` is a factory keyed by variant tag. Where C# throws because the type cannot be built (for example, an abstract type or one without a public parameterless constructor), `AddState` returns `ConstructionFailure` instead of raising an exception. As in C#, where the exception comes before any id is issued or the list changes, a miss issues no id and touches nothing.
- The `as` casts (ww_StateHandler.cs:30, 35) are not modelled. The cast at line 30 always succeeds on a built instance, because of the constraint `I_StateType : ww_State<T_Context>`. The context is the handler itself. Where the cast `this as T_Context` at line 35 could yield null, the model has no null context.
- `RemoveStatesOfType` compares variant tags for equality. The C# `is` test also matches subclasses of the requested type. Variant inheritance is not modelled.
- Hooks of concrete variants are not modelled, only the default no-op hooks. No variants appear in the modelled files, so their effects cannot be stated. In particular, hooks that call back into the handler during `UpdateStates`, `RemoveStatesOfType` or `AddState` are not modelled: every ordering statement assumes the hooks do not change the list.
- `States.IdAllocator`: the static counter of one context type is one allocator object that every handler of that context type must be given. The model does not enforce this: two handlers built on two different allocators can issue the same id. In C# that happens only for handlers of different context types. Its field `next` is also writable by any client, whereas the C# `nextAvailableID` is private and written only by the state constructor (ww_State.cs:15, 20). Ids stay distinct only while clients leave `next` alone.
- `States.IdAllocator.Issue`: the counter is an unbounded `nat`. It does not model the wrap-around of the 32-bit `int` counter after 2^31 - 1 constructions.
- The public `States` getter (ww_StateHandler.cs:19) hands out the live list in C#. Callers could change the list around the handler's operations, and that aliasing is not modelled. The model's `states` field is only changed by the handler's methods.
- `Valid()` requires every active state's `Context` to be the handler. The C# `Context` property can be reassigned by anyone; the model leaves the contexts of active states alone.
- Everything outside the two core files is not part of this model. That includes the host driver that ticks the machine, and the context's own behaviour.
