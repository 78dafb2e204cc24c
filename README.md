# Event emitter: a verified model

This project models `EventEmitter()` from `src/events.js`, a small synchronous event emitter. The factory keeps a private map `events` in its closure. The map goes from event name to a JavaScript `Set` of handler functions. Five functions act on it:

- `on` adds a handler at the tail of a name's set. A handler that is already there is not added again.
- `emit` calls every handler of a name in insertion order, passing all of them the same arguments.
- `once` registers a new wrapper function under a name. When called, the wrapper first removes itself from the set of the name it was created for, and then calls the real handler.
- `removeListener` deletes one handler.
- `removeAllListeners` clears a name's set.

All five look the name up through `getEventsByName`. If the name is missing, that lookup first inserts an empty set, so a name's key is never removed.

The model has four modules:

- `OrderedSet` (`ordered_set.dfy`) models the `Set` semantics the emitter relies on. A set is a duplicate-free sequence. `Add` appends at the tail only when the element is absent. `Delete` removes the element's single entry. Iteration order is sequence order.
- `Registry` (`registry.dfy`) gives the emitter's state as a value, `Events = map<EventName, seq<HandlerRef>>`. Each operation has a function from the old map to the new one: `Touch`, `AfterOn`, `AfterRemove`, `AfterClear` and `AfterEmit`. `Dispatch` gives the calls one emit makes. The emitter's promises are proved as lemmas about these functions.
  - A handler entry is `Plain(id)`: the caller's own function, identified by `id`.
  - Or it is `Once(wrapper, name, id)`: the wrapper function that `once(name, id)` created. Every `once` call creates a new function, so every wrapper gets a fresh identity `wrapper`. The wrapper's closure holds the `eventName` it was created with, so the entry holds `name`.
  - Running one entry is `Fire`: a plain entry changes nothing, and a wrapper calls `removeListener(name, itself)`. That is the wrapper's own name, whatever name is being emitted.
  - `AfterRunning` folds `Fire` over a sequence of entries, one after the other, as the loop of `emit` does. `AfterEmit` is `Touch` followed by `AfterRunning` over the collection found. Its closed form is `Survivors`: after an emit of `e`, each name `n` keeps exactly the entries that are not wrappers of `n` run by the emit, in order.
  - An emit's effect on the outside world is its trace: a sequence of `Invocation(handler, args)`, one per call of a caller's function.
- `EventEmitter` (`emitter.dfy`) holds the class `Emitter`. The closure's `events` object becomes a mutable field `events`. The methods `GetEventsByName`, `On`, `Emit`, `Once`, `RemoveListener` and `RemoveAllListeners` update that field. Each method's postcondition ties the new field value to the matching `Registry` function of the old one.
  - A counter `nextWrapper` models the creation of a new function by each `once` call: it is the identity the next wrapper receives.
  - A ghost history `made` records the name and function of every wrapper created so far. The invariant `Valid` says each collection is duplicate-free and every wrapper in the map is one that `once` created, with its own name and function.
  - `Emit` is a loop over the collection that `getEventsByName` returned. Its invariant says the map after `i` steps is `AfterRunning` of the first `i` entries.
  - `Run` models one step of that `forEach`. A once-wrapper deletes itself from its own name's collection, then its function is called.
- `Clients` (`clients.dfy`) replays the scenarios of `src/events.test.js` against the class's contracts. It adds one scenario: a wrapper registered by hand under a second name.

## Model

| member | source | states |
|---|---|---|
| OrderedSet.Add | src/events.js:19 | `Set.add`: the element is present afterwards; the old contents are a prefix of the result; the result is one longer exactly when the element was absent; no duplicate is ever created |
| OrderedSet.Delete | src/events.js:39 | `Set.delete`: an absent element leaves the collection unchanged; otherwise it is one shorter; every other element stays; in a duplicate-free collection the element is gone afterwards |
| OrderedSet.DeleteAt | src/events.js:38-40 | deleting cuts out exactly the entry at the element's position, so every other entry keeps its relative order |
| OrderedSet.DeleteAppend | src/events.js:33 | deleting an element absent from a prefix acts on the suffix only |
| Registry.Touch | src/events.js:47-54 | lazy lookup: an existing name leaves the map unchanged; an absent name is inserted with an empty collection; the returned collection is the name's old one, or empty; every other name is unchanged and the invariant is kept |
| Registry.AfterOn | src/events.js:18-20 | `on` changes only the named collection, makes its name a key, and keeps every collection duplicate-free |
| Registry.AfterRemove | src/events.js:38-40 | `removeListener` changes only the named collection, makes its name a key, only removes entries, and keeps every collection duplicate-free |
| Registry.AfterClear | src/events.js:42-44 | `removeAllListeners` changes only the named collection, keeps its name as a key, and keeps the invariant |
| Registry.Dispatch | src/events.js:23-27 | one emit makes exactly one call per entry; call `k` runs the function of entry `k`, in insertion order, with the same argument list |
| Registry.Fire | src/events.js:32-34 | running a wrapper touches only the name it was created for, and makes that name a key; a plain entry changes nothing; entries are only removed; no duplicate arises |
| Registry.AfterEmit | src/events.js:23-35 | after an emit of `e`, the keys are the old ones plus `e` plus the names of the wrappers it ran; every entry left was there before, under the same name; no duplicate arises |
| Registry.HomesCover | src/events.js:29-33 | every wrapper run by an emit contributes the name it was created for to the names the emit touches |
| Registry.Survivors | src/events.js:32-35 | what is left of a collection after some entries ran: exactly its entries that are not wrappers of that name among them; no duplicate arises |
| Registry.SurvivorsAppend | src/events.js:32-35 | removal distributes over concatenation, so the entries left keep their relative order |
| Registry.DeleteSurvivor | src/events.js:33 | one more wrapper deleting itself has the effect of adding it to the entries that ran |
| Registry.FireSurvivors | src/events.js:24-34 | running one more entry keeps the closed form: the collection of each name is its survivors of the longer run |
| Registry.RunStep | src/events.js:24-26 | running the entries found so far and then the next one is running the longer prefix: the step of the `forEach` |
| Registry.RunningKeys | src/events.js:32-33 | running entries adds as keys exactly the names their wrappers remove themselves from |
| Registry.RunningFrom | src/events.js:33 | running entries only ever removes entries |
| Registry.RunningWellFormed | src/events.js:33 | running entries keeps every collection duplicate-free |
| Registry.RunningSurvivors | src/events.js:24-34 | after a run, every name's collection is its survivors, in order, whether or not the name was a key |
| Registry.RunningUntouched | src/events.js:32-33 | a name that no wrapper among the entries run was created for keeps its collection |
| Registry.RunningPlain | src/events.js:24-26 | running plain entries changes nothing |
| Registry.DispatchAppend | src/events.js:24-26 | the calls of two collections run one after the other are the calls of the first followed by those of the second |
| Registry.DispatchStep | src/events.js:24-26 | running one more entry appends exactly that entry's call to the trace |
| Registry.EmitLive | src/events.js:23-35 | after `i` steps of an emit of `e`, the live collection of `e` holds what is left of the visited entries followed by every entry not yet visited, so iterating the collection found visits exactly what iterating the live `Set` visits |
| Registry.EmitSurvivors | src/events.js:23-35 | after an emit of `e`, every name's collection holds exactly its entries that are not wrappers of that name run by the emit, in order; in particular `e` loses exactly its own wrappers |
| Registry.NotRegisteredNotInvoked | src/events.js:23-27 | a function that no entry of the collection runs is never called by the emit |
| Registry.EmitIsolation | src/events.js:23-35 | emitting a name does not call a handler registered only under another name; the other collection loses only the wrappers created for it that the emit ran, and is unchanged when the emit ran none |
| Registry.MovedWrapperStays | src/events.js:29-35 | a wrapper created for one name and also registered under `e` is called by an emit of `e`, stays under `e`, and is gone from its own name |
| Registry.EmitUnknownName | src/events.js:47-50 | emitting a name that is not a key calls nothing and only inserts the empty entry |
| Registry.SoleEntryInvokedOnce | src/events.js:23-27 | in a duplicate-free collection where only the handler's own entry runs it, one emit calls the handler exactly once |
| Registry.EmitStable | src/events.js:23-35 | a second emit of the same name finds the map the first left and leaves it unchanged: emitting removes once-wrappers and nothing else |
| Registry.EmitStableAt | src/events.js:23-35 | the same, for one name's collection |
| Registry.EmitOfPlainKeepsState | src/events.js:23-27 | an emit over a collection with no once-wrapper changes nothing apart from lazy key creation |
| Registry.EmitRepeatedlyUnfold | src/events.js:23-27 | the calls of `m + 1` emits are those of the first followed by those of the other `m`, which also decide the final map |
| Registry.CountStep | src/events.js:23-27 | the calls of a handler in `m + 1` emits are its calls in the first plus its calls in the other `m` |
| Registry.OnlyPlainPersists | src/events.js:23-35 | an emit keeps a handler's plain entry, and keeps that entry the only one that runs the handler |
| Registry.PlainInvokedEveryEmit | src/events.test.js:35-45 | a handler registered with `on` and wrapped by no `once` is called exactly `n` times by `n` emits |
| Registry.NeverInvokedAgain | src/events.js:29-35 | once no entry runs a handler, no number of later emits calls it, and still no entry runs it afterwards |
| Registry.OnceFirstEmit | src/events.js:29-35 | the first emit after `once(e, h)` calls `h` once and leaves no entry of `e` that runs `h` |
| Registry.FirstThenNever | src/events.js:29-35 | when the first emit calls a handler once and leaves nothing that runs it, `n >= 1` emits call it once in total |
| Registry.OnceFiresOnce | src/events.js:29-35 | after `once(e, h)` and `n >= 1` emits of `e`, `h` is called exactly once in total, during the first emit, and its wrapper is gone from `e`'s collection |
| Registry.OnNoDuplicates | src/events.js:18-20 | `on` appends at the tail exactly when the entry is absent, and otherwise only touches the name; registering twice equals registering once; no duplicate arises |
| Registry.RegisteredTwiceInvokedOnce | src/events.js:18-27 | registering the same handler twice with `on` and emitting once calls it once |
| Registry.RemoveTargeted | src/events.js:38-40 | after `removeListener(e, h)`, `h` is not in `e`'s collection. The other entries stay in their relative order. Removing an absent entry only creates the key |
| Registry.RemovedNotInvoked | src/events.test.js:60-68 | a handler registered with `on` and then removed is not called by a later emit |
| Registry.RemoveDoesNotCancelOnce | src/events.js:29-40 | removal is by identity: `removeListener(e, h)` does not remove the wrapper that `once(e, h)` registered |
| Registry.ClearEmpties | src/events.js:42-44 | after `removeAllListeners(e)`, `e` is still a key, its collection is empty, and an emit of `e` calls nothing |
| EventEmitter.Emitter.constructor | src/events.js:12-16 | a new emitter starts with an empty map and no wrapper created |
| EventEmitter.Emitter.GetEventsByName | src/events.js:47-54 | the new state is `Touch` of the old one; the result is the name's existing collection, or the empty one just inserted |
| EventEmitter.Emitter.On | src/events.js:18-20 | the new state is `AfterOn` of the old one; the invariant (no duplicates, every wrapper one that `once` created) is kept |
| EventEmitter.Emitter.RemoveListener | src/events.js:38-40 | the new state is `AfterRemove` of the old one; the invariant is kept |
| EventEmitter.Emitter.RemoveAllListeners | src/events.js:42-44 | the new state is `AfterClear` of the old one; the invariant is kept |
| EventEmitter.Emitter.Once | src/events.js:29-36 | a new wrapper identity is created for this name and function, and the wrapper is always appended at the tail of the name's collection, since it is new |
| EventEmitter.Emitter.Run | src/events.js:24-34 | running an entry calls its function with the arguments; the new state is `Fire` of the old one, so a once-wrapper first removes itself from the collection of its own name |
| EventEmitter.Emitter.Emit | src/events.js:23-27 | the returned trace is `Dispatch` of the collection found, so every entry is called once, in order, with the same arguments. The new state is `AfterEmit` of the old one |
| Clients.EmitsWithoutArguments | src/events.test.js:5-13 | `on` then `emit` with no arguments calls the callback once, with no arguments |
| Clients.EmitsWithOneArgument | src/events.test.js:15-23 | on a fresh emitter, `emit` with `"x"` calls the callback once, with exactly `["x"]` |
| Clients.EmitsWithMultipleArguments | src/events.test.js:25-33 | on a fresh emitter, `emit` with `"x", "y"` calls the callback once, with exactly `["x", "y"]`, in order |
| Clients.CallsHandlerMultipleTimes | src/events.test.js:35-45 | each of three emits calls the callback exactly once with no arguments |
| Clients.OnlyRelevantHandler | src/events.test.js:47-58 | emitting `other_event` calls only the handler of `other_event` |
| Clients.RemovesSpecificHandler | src/events.test.js:60-68 | after `removeListener`, the collection does not hold the callback |
| Clients.RemovesAllHandlers | src/events.test.js:70-80 | after `removeAllListeners`, the collection has size 0 |
| Clients.OnceCalledAtMostOnce | src/events.test.js:82-92 | `once` then three emits call the callback once |
| Clients.WrapperLeavesItsOwnName | src/events.js:29-35 | an emit of `other_event`, whose only entry is the wrapper created for `some_event`, calls the callback once, leaves `some_event` without the wrapper and keeps it under `other_event` |
| Clients.WrapperRegisteredElsewhere | src/events.js:29-35 | `once("some_event", f)`, then the wrapper found under `some_event` registered with `on` under `other_event`, then two emits of `other_event`: `f` is called by both emits, `some_event` ends empty, and `other_event` keeps the wrapper |

## Modelling decisions

- Handlers are opaque identities. `HandlerId` stands for a caller's function, and `Once(wrapper, name, id)` stands for a wrapper that `once(name, id)` created. Calling a handler is recorded as an `Invocation` in the trace that `Emit` returns. Nothing foreign is executed.
- `Emitter.On` takes any entry, because `once` passes its wrapper to `on` (`src/events.js:32`), and a caller can pass on a wrapper it read back from `getEventsByName`. It requires that a wrapper entry is one that `once` created for that name and function (`Minted`). In JavaScript a wrapper function exists only once `once` has made it, and its name and function are fixed by its closure, so no caller can hold any other wrapper.
- One might expect an emit or a removal on an unknown name to be a no-op. The code inserts an empty entry (`src/events.js:48-50`). The model follows the code: every operation makes its name a key (`OthersUnchanged`, `Touch`). A wrapper that runs also makes its own name a key, through `removeListener`.
- One might treat registration order as an accident. The code's `Set` iterates in insertion order, and the model states that order.
- The emit loop iterates the collection it found, while JavaScript's `forEach` iterates the live `Set`. During an emit of `e`, the only change to `e`'s live set is a wrapper of `e` deleting itself after it was visited. `Registry.EmitLive` proves that the two iterations visit the same entries.

## Left out

- Executing handler functions (`handlerFn(...args)`, `src/events.js:25, 34`): these are calls into arbitrary caller code. The model records each call in the returned trace instead.
- Exceptions thrown by a handler, which abort the rest of the `forEach`: that is host-runtime behaviour with no code in the component.
- Handlers that register or remove other handlers during an emit (re-entrancy). The only changes to collections during dispatch that are modelled are the once-wrappers' own removals.
- Aliasing of the returned `Set`: `getEventsByName` returns the live `Set` object, which callers (the other methods, and tests) mutate in place. The model returns the collection as a value, and each method writes the updated collection back into `events`.
- Names inherited from `Object.prototype`: `events` is a plain object, so names such as `"toString"`, `"constructor"` or `"__proto__"` are already `in events`. For them `getEventsByName` returns an inherited value that is not a `Set`, and every operation on such a name throws. The model treats every name alike, as a map key.
- Coercion of names: a non-string event name is converted to a string property key, so `1` and `"1"` share one collection. The model's names are strings only.
- Emitter.Once: `once` is modelled only around a caller's own function (`h: HandlerId`). The source's `once` accepts any function, including a wrapper read back from `getEventsByName` (`src/events.js:29-35`). Wrapping a wrapper is therefore not expressible. Lost with it is the inner wrapper's own step: when the outer wrapper runs, it removes itself from its name and calls the inner wrapper, which then removes itself from its own name before calling the caller's function. So, for example, the model does not state that one emit of `"b"` after `once("a", f)` and `once("b", w)`, with `w` the wrapper of `"a"`, empties both `"a"` and `"b"` and calls `f` once.
- JavaScript plumbing: the `this`/`self` binding, and rest/spread of arguments beyond a plain argument list (`seq<Value>`, with values kept opaque as strings).
- Registry.EmitStable: requires every collection to be duplicate-free. A collection that held the same wrapper twice would lose one copy per run of that wrapper, so a second emit could still change it; such a map is not reachable, since a `Set` has no duplicates.
