# resize-observer-polyfill, modelled in Dafny

This project models the bookkeeping and change detection of the
`resize-observer-polyfill` TypeScript library:

- **The shared watcher** (`src/resize-watcher.ts`, module `Watcher`). It keeps one
  insertion-ordered table, `concatMap`, that maps each watched element to its
  options, its last known rect and the observer instance that owns it.
  - `start` merges every instance's element map into the table.
  - `removeElementFromInstance` and `removeInstance` delete entries from it.
  - `watchElements` is one diff pass:
    1. Read every element's current rect.
    2. Compare width and height with the stored rect.
    3. Bucket the changed elements by owner, in table order, and store their new rects.
    4. Call `applyChanges` once per instance that has a bucket.
    5. Request the next frame.
- **The earlier shared watcher** (`resize-watcher.ts` at the repository root,
  module `EarlyWatcher`). It has the same table and the same `start` and remove
  operations. Its pass reads a `targets` map that it is given, never writes back,
  and builds its buckets by spreading a bucket that does not exist yet (see
  Findings).
- **The standalone observer** (`resize-observer.ts`, module `Observer`).
  - It keeps a `targets` map from element to options.
  - It holds the window's `resize` listener exactly while that map is non-empty.
  - On a `resize` event it builds one entry per target, in observation order.

Supporting modules:

- `JsMaps`: the JavaScript `Map` as a key sequence plus a lookup.
  - `set` on an existing key keeps its position.
  - `set` on a new key appends it.
  - `delete` cuts the key out.
  - `WellFormed` says that every key is listed exactly once.
- `WatcherTable`: the table and what `start` and `removeInstance` do to it, as
  functions on table values.
- `WatcherPass`: one pass as functions of the table and of the layout.
  - It covers the readings, the buckets, the calls and the table after the pass.
  - It also holds the read and notify loops that both watchers share.
- `Interfaces`: the record shapes of `src/interfaces.ts`.

Elements and observer instances are identities (`nat`), compared only with
`===` in the source. `getBoundingClientRect` is the parameter
`measure: Element -> Rect`, which is the layout during one pass. The
`applyChanges` calls and the entries handed to the observer's callback are
returned as values rather than executed.

## Model

| member | source | states |
|---|---|---|
| JsMaps.Set | src/resize-watcher.ts:74-77 | `map.set`: the stored value is replaced. An existing key keeps its position and a new key is appended. The map stays well-formed. |
| JsMaps.Delete | src/resize-watcher.ts:95 | `map.delete`: exactly that key and its value go, and every other key keeps its relative order. Deleting an absent key changes nothing. |
| JsMaps.SetThenDelete | resize-observer.ts:30-42 | `set` of a new key followed by `delete` of that key gives back the original map, order included. This is observe followed by unobserve of a new target. |
| WatcherTable.SetElementsEffect | src/resize-watcher.ts:73-78 | After the inner `forEach` of `start` has visited n elements, each of them is stored with that instance as owner. Every other element is unchanged. |
| WatcherTable.LastOwner | src/resize-watcher.ts:72-79 | The instance it returns is the last one in the given order that lists the element: it lists it, and no instance after it in that order does. When it returns none, no instance in that order lists the element. |
| WatcherTable.StartMerges | src/resize-watcher.ts:69-79 | Every element some instance lists ends up owned by the last instance, in iteration order, that lists it, with that instance's options and rect. Other entries are untouched and existing keys keep their positions at the front. |
| WatcherTable.WithoutInstance | src/resize-watcher.ts:100-106 | The table after `removeInstance`: exactly the entries of other owners, unchanged, in their original relative order. |
| WatcherPass.ReadPhase | src/resize-watcher.ts:27-33 | The read loop yields one reading per table key, in table order. Each reading holds the rect measured now and the rect and owner stored before the pass, so every rect is read before any is written. |
| WatcherPass.GroupIsChangesOf | src/resize-watcher.ts:35-54 | An instance has a bucket exactly when it owns a changed element. The bucket holds exactly its changed elements with their new rects, in table order. |
| WatcherPass.ReportedIffChanged | src/resize-watcher.ts:27-54 | An element is reported to an instance, with a rect, if and only if the instance owns it, its width or height differs strictly from the stored rect, and the rect is the one just read. |
| WatcherPass.DispatchOncePerInstance | src/resize-watcher.ts:35-64 | Every instance is called at most once per pass. A call carries a non-empty bucket equal to the instance's changes. Every instance that owns a change is called. |
| WatcherPass.NotifyPhase | src/resize-watcher.ts:62-64 | The notify loop makes one call per bucket, in the order the buckets were created. |
| WatcherPass.Refreshed | src/resize-watcher.ts:55-58 | After a pass the table has the same keys in the same order, with owners and options unchanged. A changed element stores the rect just read and an unchanged one keeps its stored rect. |
| WatcherPass.PassIdempotent | src/resize-watcher.ts:36-58 | A second pass over an unchanged layout calls nobody and leaves the table as the first pass left it. |
| WatcherPass.EarlyGroupThrowsOnChange | resize-watcher.ts:34-44 | The earlier compare phase fails with the `TypeError` of spreading `undefined` if and only if some reading changed. Otherwise it builds no bucket. |
| WatcherPass.EarlyPassNeverCalls | resize-watcher.ts:18-51 | The earlier pass is idle when the watcher's table is empty. Otherwise it fails if and only if some target's width or height changed, and it never calls any instance. |
| Watcher.ComparePhase | src/resize-watcher.ts:35-60 | The compare loop builds exactly the buckets of `Group` and leaves exactly the table of `Refreshed`. |
| Watcher.ResizeWatcher.constructor | src/resize-watcher.ts:16 | The table starts empty. |
| Watcher.ResizeWatcher.WatchElements | src/resize-watcher.ts:18-67 | With an empty table the pass is idle and changes nothing. Otherwise it makes the calls of `PassCalls` in order, leaves the table of `Refreshed`, and requests the next frame. |
| Watcher.ResizeWatcher.Start | src/resize-watcher.ts:69-84 | The table becomes `Started` of the old table, whose content `StartMerges` describes. |
| Watcher.ResizeWatcher.SetInstanceElements | src/resize-watcher.ts:73-78 | The inner `forEach` sets every element of one instance, owner set to that instance. The table stays a well-formed map. |
| Watcher.ResizeWatcher.RemoveElementFromInstance | src/resize-watcher.ts:92-98 | The table becomes `Delete(old table, element)`: only that key goes, order kept, nothing happens if it is absent. |
| Watcher.ResizeWatcher.RemoveInstance | src/resize-watcher.ts:100-106 | The table becomes `WithoutInstance(old table, instance)`, although the loop deletes from the map it iterates. |
| EarlyWatcher.EarlyComparePhase | resize-watcher.ts:34-44 | The earlier compare loop returns exactly `EarlyGroup` of the readings: the error at the first changed reading, or the (empty) buckets. |
| EarlyWatcher.ResizeWatcher.constructor | resize-watcher.ts:16 | The table starts empty. |
| EarlyWatcher.ResizeWatcher.WatchElements | resize-watcher.ts:18-51 | The pass is idle if and only if the watcher's own table is empty, whatever `targets` holds. Otherwise it fails with the `TypeError` if and only if a target changed, and else calls nobody. It writes nothing, in either outcome. |
| EarlyWatcher.ResizeWatcher.Start | resize-watcher.ts:53-66 | The table becomes `Started` of the old table. Existing entries are kept unless an instance lists the same element. |
| EarlyWatcher.ResizeWatcher.SetInstanceElements | resize-watcher.ts:57-62 | The inner `forEach` sets every element of one instance, owner set to that instance. The table stays a well-formed map. |
| EarlyWatcher.ResizeWatcher.RemoveElementFromInstance | resize-watcher.ts:74-80 | Only the given key is removed, order kept. |
| EarlyWatcher.ResizeWatcher.RemoveInstance | resize-watcher.ts:82-88 | Exactly that owner's entries are removed, the rest are kept in order. |
| Observer.ResizeObserver.constructor | resize-observer.ts:23-27 | An observer starts with no targets and no listener. |
| Observer.ResizeObserver.Observe | resize-observer.ts:30-35 | Stores target ↦ options, or content-box when options are omitted (`getDefaultOptions`, lines 71-75). Re-observing overwrites without duplicating the target. Afterwards the observer is listening, and "listening ⇔ targets non-empty" is kept. |
| Observer.ResizeObserver.Unobserve | resize-observer.ts:37-42 | Removes only that target and keeps the order of the rest. It is a no-op on the map for an untracked target. The listener goes exactly when the map becomes empty. |
| Observer.ResizeObserver.Disconnect | resize-observer.ts:44-47 | Leaves no targets and no listener. It does so again on a second call. |
| Observer.ResizeObserver.HandleEvent | resize-observer.ts:49-67 | The callback gets one entry per observed target, in observation order. Entry i carries the i-th observed target, the rect just read for it, and zero border-box and content-box sizes, whatever `box` it was observed with. The entry targets are exactly the observed targets, each once. |

## Left out

- `stop`, `requestAnimationFrame`, `cancelAnimationFrame` and the `requestID` field (src/resize-watcher.ts:15, 66, 70, 83, 86-90; resize-watcher.ts:15, 50, 54, 65, 68-72) are host frame scheduling.
  - A pass reports whether it requested the next frame through its outcome (`Rescheduled`, versus `Idle` or `Failed`).
  - `start`'s own frame request and `stop`'s cancellation are not modelled.
- `getBoundingClientRect` is a DOM call. It is the parameter `measure`, assumed to give the same layout throughout one pass.
- DOM rect fields are floating point. They are integers here, because the only operation applied to them is `!==`.
- `window.addEventListener` and `removeEventListener` are the boolean field `listening`. The model relies on the DOM rule that adding a registered listener again, or removing an absent one, has no effect.
- User callbacks are returned rather than executed:
  - the watcher returns the `applyChanges` calls it would make, in order;
  - `HandleEvent` returns the entries it would hand to the observer's callback.

  Consequently a callback that throws, or that re-enters the watcher, is not modelled.
- Watcher.ComparePhase: the compare loop's `concatMap.set` calls are made on a local copy of the table, which `WatchElements` stores back when the loop ends. Nothing else runs in between, so no intermediate state is lost, but the model does not show the field being updated entry by entry.
- Watcher.ResizeWatcher.RemoveInstance, EarlyWatcher.ResizeWatcher.RemoveInstance:
  - The loop runs over the keys present when `forEach` starts, which is what `forEach` visits when only the visited key is deleted.
  - The deletions are made on a working copy that becomes `concatMap` when the loop ends, rather than on the field entry by entry.
- EarlyWatcher.ResizeWatcher.WatchElements:
  - `start` schedules the earlier pass with the table object itself as `targets`, so later passes see later table contents.
  - The model takes `targets` as a value at each call.
  - The earlier pass writes nothing, so this aliasing changes no outcome.
- Argument validation of the constructors and of `observe`/`unobserve` (the error messages in tests/ResizeObserver.spec.ts) has no counterpart in the modelled classes, so it is not modelled.
- Observer.ResizeObserver.constructor takes no callback and so cannot fail. In resize-observer.ts:25, `callback.bind(null)` throws a `TypeError` when the callback is missing or is not a function; that failure is not modelled.
- `console.log` calls and the unused `OBSERVER_INSTANCES` set (resize-observer.ts:19) have no effect on the modelled state.
- src/resize-observer.ts is not part of this model. It calls a watcher method, `addElementToMap`, that no watcher defines.
- These files are not part of this model:
  - src/index.ts, a demo script;
  - src/helpers/helpers.ts, runtime type checks;
  - src/utils/animation-cycle.ts, frame scheduling.

## Findings

| source | as written | input that shows it | evidently intended | confidence | as-written member | corrected member |
|---|---|---|---|---|---|---|
| resize-watcher.ts:36-42 | The bucket of a changed element is built by spreading `instancesMap.get(instance)`. For an instance's first change that value is `undefined`, so the spread throws a `TypeError` and the pass aborts before any `applyChanges` call and before the next frame is requested. | After `start`, one tracked element whose width differs from its stored rect on the next pass. | Start a new bucket when the instance has none, as src/resize-watcher.ts:37-53 does. Every owner of a change is then called once with exactly its changes. | not executed | WatcherPass.EarlyGroupThrowsOnChange | WatcherPass.GroupIsChangesOf |
