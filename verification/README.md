# Timer engines of gotool, modelled in Dafny

This project models the three sequential timer engines of the Go
repository `gotool`:

- **The state machine** (`statem`).
  - A table of states is validated: ids must be unique, successors must resolve, and the initial state must exist.
  - The active state has a deadline. When it passes, `Tick` moves the machine to the state's automatic successor.
  - Each state owns a registry of keyed timeouts. Every transition discards it.
- **The hashed timing wheel** (`time_wheel`).
  - `slotNum` slots, each a list kept in deadline order by insertion sort, are visited round-robin, one per tick.
  - A timer is filed `timeout / tick` slots ahead of the current one.
  - A cancellation map records where each timer was filed, under the caller's key, so that `del(key)` removes every timer added under that key.
- **The binary-heap timer** (`time_heap`).
  - An array min-heap ordered by deadline. Its `Swap`/`Push`/`Pop` adapter keeps each entry's `id` equal to its position.
  - `container/heap`'s sift-up and sift-down are written out explicitly.
  - A drain step fires the root while it is due. A recurring (`ExpireEvery`) root is re-armed `dura` after `now`; any other root is removed.

## How the model is organised

Each engine's state is a Dafny `class` whose methods update fields in place,
as the Go methods do:

- `Statem.Machine`;
- `WheelSlot.Slot` and `TimeWheel.Wheel`, whose slots are an `array`;
- `TimeHeap.TimersHeap` and `TimeHeap.Heap`.

Clock readings are explicit `now` parameters:

- the state machine uses Unix seconds;
- the wheel uses nanoseconds, floored to Unix seconds;
- the heap uses an integer time line.

Callbacks and task dispatch are recorded in ghost traces:

- `Machine.trace` records entries, exits and keyed timeouts;
- `Wheel.delivered` and `Heap.delivered` record the tasks handed to the worker pool.

Each method is proved against a specification:

- The state machine's validation loops are proved equal to the pure function `Statem.Validate`. `ValidateSpec` states when that function succeeds, the table it installs, and which error it reports, in the order the source checks (duplicate ids, then dangling successors, then the initial state).
- The slot's list is tied to `LeadingDue` and `Without`.
- The wheel keeps a ghost map from element to key. The invariant `Wheel.Valid` says that the cancellation map and the slot lists agree, and every handler preserves it.
- The heap's sift operations and its public methods (`HeapPush`, `Remove`, `Fix`, `Sift`, `Heap.Add`, `Heap.FireRoot`) preserve heap order and `id == position`, and each states how the multiset of entries (ids stripped) changes. The `Swap`/`Push`/`Pop` adapter methods state the array they leave, which need not be ordered.
- The drain loop is proved against a ledger that relates the heap, the fired entries and the re-armed ones.

Go's `int32` placement arithmetic, its truncating `/` and its sign-keeping `%` are written out in `GoInts`.

## Model

| member | source | states |
|---|---|---|
| Statem.UniqueIdsSnoc | statem/statem.go:65-69 | appending a row keeps ids unique exactly when the new row's id is fresh |
| Statem.CollectOkIffUnique | statem/statem.go:64-70 | the first validation loop succeeds if and only if all `Current` ids are distinct |
| Statem.CollectTable | statem/statem.go:64-70 | on success the collected map's keys are exactly the ids, and each row is filed under its own id |
| Statem.CollectDuplicate | statem/statem.go:66-67 | on failure the error is `reduplicated state` naming an id shared by two rows at positions i < j |
| Statem.CollectSpec | statem/statem.go:64-70 | combines the three facts above: success iff unique ids, the table on success, and a witnessed duplicate on failure |
| Statem.CollectErrSticky | statem/statem.go:66-67 | once a prefix contains a duplicate, the whole slice fails with that same error (the loop returns at once) |
| Statem.FindDanglingSpec | statem/statem.go:71-77 | no dangling successor is found iff every non-zero `Next` names a row; a reported id is non-zero, absent, and some row's `Next` |
| Statem.ValidateSpec | statem/statem.go:63-86 | initialisation validates exactly when ids are unique, successors resolve and the initial state exists; on success the table holds every row under its id and is closed under `Next`; each error names its cause, and a duplicate id is reported before a dangling successor, which is reported before a missing initial state |
| Statem.CheckTable | statem/statem.go:63-86 | the two validation loops plus the initial-state lookup compute exactly `Validate` |
| Statem.Collect | statem/statem.go:64-70 | on success every row is filed under its own id; a failure is always `reduplicated state` |
| Statem.FindDangling | statem/statem.go:71-77 | a reported successor is non-zero and absent from the table |
| Statem.Validate | statem/statem.go:63-86 | on success the table contains the initial state and files each row under its id; a failure is never `AlreadyHasKey` |
| Statem.StateTimedOut | statem/statem.go:147-148 | the state's own timeout fires when `timeNow` has reached the deadline and the state has both a timeout and a successor |
| Statem.AddTimeoutSecondFromNow | statem/statem.go:194-196 | the deadline is exactly `sec` seconds after `now` |
| Statem.DistinctSnoc | statem/statem.go:156-160 | appending a key not yet fired keeps the fired keys distinct (each due key fires once) |
| Statem.Machine.constructor | statem/statem.go:57-60 | a new machine has no current state, an empty registry and table, and an empty trace |
| Statem.Machine.InitStateMachine | statem/statem.go:61-91 | a rejected table returns its error and leaves every field unchanged; otherwise the table is installed, the initial state is entered with `IsTimeoutExit` false and no custom data, the registry is empty, the deadline is `now + Timeout`, and the entry callback runs (except for id 0, where `gotoState` is a no-op) |
| Statem.Machine.State | statem/statem.go:94-96 | returns the active state's id, which is a row of the table |
| Statem.Machine.InsertKeyValueTimeout | statem/statem.go:104-111 | an existing key returns `AlreadyHasKey` and leaves the registry unchanged; otherwise the key is added with deadline `now + Timeout`; nothing else changes |
| Statem.Machine.UpdateKeyValueTimeout | statem/statem.go:114-122 | on an existing key, replaces value, timeout and deadline and keeps the stored callback; on an absent key, stores the record as given with its deadline not recomputed |
| Statem.Machine.DelKeyValueTimeout | statem/statem.go:125-127 | removes the key if present (idempotent); nothing else changes |
| Statem.Machine.GetKeyValueTimeout | statem/statem.go:129-132 | found iff the key is registered, returning the stored record |
| Statem.Machine.GotoNext | statem/statem.go:135-137 | with `Next == 0` nothing changes; otherwise it behaves as `gotoState(Next, false)` |
| Statem.Machine.GotoState | statem/statem.go:140-142 | id 0 changes nothing; an unknown id reports `not found state` and changes nothing; otherwise it enters the state with `IsTimeoutExit` false |
| Statem.Machine.Tick | statem/statem.go:145-163 | when the state's own deadline has passed (and it has a timeout and a successor), it exits then enters the successor with `IsTimeoutExit` true, without scanning keyed timeouts; otherwise every keyed timeout due at `timeNow` fires exactly once and is removed, the rest remain, and the state is unchanged |
| Statem.Machine.EnterNext | statem/statem.go:165-170 | the successor, if non-zero, is entered with the given `isTimeout`; otherwise nothing changes |
| Statem.Machine.EnterState | statem/statem.go:172-187 | id 0 is a no-op; an unknown id is an error and nothing changes; otherwise the state is set (custom data kept), the deadline becomes `now + Timeout`, `IsTimeoutExit` is set, the registry is emptied, and the entry callback runs |
| WheelSlot.Element.constructor | time_wheel/slot.go:22 | a list element holds the timer it was made for |
| WheelSlot.LeadingDue | time_wheel/slot.go:20-29 | the insertion point: every earlier timer is due no later than `ts` and the next one strictly later, so equal deadlines keep insertion order |
| WheelSlot.Without | time_wheel/slot.go:36 | the list minus a set of elements keeps exactly the other elements |
| WheelSlot.InsertKeepsSorted | time_wheel/slot.go:16-29 | inserting at the scan's stopping point keeps the list in ascending deadline order |
| WheelSlot.InsertKeepsDistinct | time_wheel/slot.go:22-28 | inserting a fresh element keeps the list free of duplicates |
| WheelSlot.WithoutSorted | time_wheel/slot.go:36 | removing elements keeps the list sorted |
| WheelSlot.WithoutDistinct | time_wheel/slot.go:36 | removing elements keeps the list free of duplicates |
| WheelSlot.WithoutAbsent | time_wheel/slot.go:36 | removing elements that are not in the list leaves it unchanged |
| WheelSlot.RemoveAtIsWithout | time_wheel/slot.go:36 | unlinking the element at its position is removing exactly that element |
| WheelSlot.WithoutOneLength | time_wheel/slot.go:36-37 | removing a live element shortens the list by one, matching the counter's decrement |
| WheelSlot.WithoutWithout | time_wheel/wheel.go:167-169 | removing two batches in turn equals removing their union |
| WheelSlot.WithoutAgree | time_wheel/wheel.go:167-169 | removals by two sets that agree on the list's elements give the same list |
| WheelSlot.Slot.constructor | time_wheel/slot.go:10-14 | a new slot is empty with `num == 0` |
| WheelSlot.Slot.Add | time_wheel/slot.go:16-32 | the timer's new element is inserted after every timer due no later than it and before the rest; the list stays sorted and duplicate-free, and `num` grows by one and stays equal to the length |
| WheelSlot.Slot.Del | time_wheel/slot.go:34-39 | nil is a no-op; otherwise exactly that element is removed, with `num` decremented only when the element was in the list, so `num` stays equal to the length |
| WheelSlot.Slot.Front | time_wheel/slot.go:42-48 | None iff the slot is empty; otherwise the head timer, which is due no later than any other |
| WheelSlot.Slot.Pop | time_wheel/slot.go:51-58 | on a non-empty slot, removes and returns the head (the earliest deadline) and decrements `num` |
| WheelSlot.DelAsWritten | time_wheel/slot.go:34-39 | `del` as written: on a live element the counter keeps matching the length |
| WheelSlot.StaleDelSkewsCount | time_wheel/slot.go:34-39 | deleting an element no longer in the list leaves the list unchanged but still decrements `num` |
| TimeWheel.WithoutEach | time_wheel/wheel.go:167-169 | each slot's list without the removed elements, one list per slot |
| TimeWheel.NewWheelTimer | time_wheel/wheel.go:66-67 | the deadline is the Unix second of `now + timeout`, rounded down; interval and task are kept |
| TimeWheel.PlaceSlot | time_wheel/wheel.go:136-142 | a timeout under one tick stays in the current slot; otherwise Go's `%` of the wrapped int32 sum lies strictly between `-slotNum` and `slotNum`, so it can be negative |
| TimeWheel.PlaceSlotAhead | time_wheel/wheel.go:136-142 | a timeout under one tick goes to the current slot, otherwise `(curSlot + timeout/tick) mod slotNum`, always a valid slot index while the int32 sum does not overflow |
| TimeWheel.ElemsFiledShrink | time_wheel/wheel.go:120-128 | removing timers from slots keeps every remaining timer filed in the cancellation map |
| TimeWheel.FiledAfterAdd | time_wheel/wheel.go:145-160 | filing the new element under its key keeps the map and the slots in agreement |
| TimeWheel.FiledAfterDel | time_wheel/wheel.go:163-172 | removing all of a key's elements and erasing the key keeps the map and the slots in agreement |
| TimeWheel.WithoutLocationsStep | time_wheel/wheel.go:167-169 | one iteration of `del`'s loop removes the element from its own slot and from no other |
| TimeWheel.FiledLocationsAreKeyed | time_wheel/wheel.go:165-169 | in each slot, the locations filed under a key remove exactly the elements added under that key |
| TimeWheel.Wheel.constructor | time_wheel/wheel.go:45-56 | `slotNum` distinct empty slots, slot 0 current, and an empty cancellation map |
| TimeWheel.Wheel.AddTimer | time_wheel/wheel.go:135-161 | the timer goes into exactly one slot, the placement slot, at its sorted position; its location is appended to the key's list, earlier entries kept; all other slots are unchanged |
| TimeWheel.Wheel.DelKey | time_wheel/wheel.go:163-172 | every timer added under the key is removed from its slot and the key erased; other keys' timers are untouched; an unknown key changes nothing |
| TimeWheel.Wheel.DelLocations | time_wheel/wheel.go:167-169 | the loop removes from each slot exactly the elements recorded for it |
| TimeWheel.Wheel.Tick | time_wheel/wheel.go:112-133 | the maximal prefix of the current slot due by the current Unix second is delivered in order and removed; the rest of that slot and every other slot are unchanged; the cancellation map is not touched; `curSlot` advances modulo `slotNum` |
| TimeWheel.ExpireDue | time_wheel/wheel.go:117-128 | while the head is due, deliver and pop it: exactly the leading due timers, in list order |
| TimeWheel.NewAndRun | time_wheel/wheel.go:41-59 | nil iff `slotNum <= 0`, `tick < 1s` or `workerPoolNum <= 0`; otherwise an empty wheel at slot 0 |
| GoInts.ToInt32 | time_wheel/wheel.go:141 | Go's int32 conversion: values in range are kept, and the result differs from the input by a multiple of 2^32 |
| GoInts.GoQuo | time_wheel/wheel.go:141 | Go's truncating `/` by a positive divisor: Euclidean division on non-negative dividends, 0 for dividends of smaller magnitude |
| GoInts.GoRem | time_wheel/wheel.go:141 | Go's `%` by a positive divisor: magnitude below the divisor, the Euclidean remainder on non-negative dividends, and never positive on negative ones |
| HeapTimer.Due | time_heap/heap.go:57 | an entry is due when `now` is strictly after its deadline |
| HeapTimer.NewTimer | time_heap/timer.go:25-33 | the deadline is `now + dura`; kind, interval and task are stored unchanged; `id` is left at 0 |
| TimeHeap.Bag | time_heap/heap.go:136 | the multiset of entries (ids stripped) has one member per array entry |
| TimeHeap.BagUpdate | time_heap/heap.go:62 | overwriting one entry trades its old value for the new one in the multiset |
| TimeHeap.RootIsEarliest | time_heap/heap.go:75-79 | in a heap ordered by `Less`, the root's deadline is no later than any entry's |
| TimeHeap.RootIsLeast | time_heap/heap.go:56-57 | the root of a non-empty ordered heap is one of its entries and no entry is due before it |
| TimeHeap.PopStep | time_heap/heap.go:159-166 | dropping the last entry keeps heap order and `id == position`, and removes exactly that entry from the multiset |
| TimeHeap.PushStep | time_heap/heap.go:153-157 | appending to a heap breaks order at most at the new leaf |
| TimeHeap.ReplaceStep | time_heap/heap.go:61-62 | changing one entry's deadline breaks order only around that entry |
| TimeHeap.RemoveStep | time_heap/heap.go:45 | swapping an entry with the last one and shrinking the heap breaks order only around that position |
| TimeHeap.SwapUpStep | time_heap/heap.go:147-151 | swapping a child that is earlier than its parent moves the only order violation one level up |
| TimeHeap.UpExit | time_heap/heap.go:146 | sift-up stops with the heap ordered once the entry is no earlier than its parent |
| TimeHeap.SwapDownStep | time_heap/heap.go:147-151 | swapping a parent with its earliest child, when that child is earlier, moves the only violation one level down |
| TimeHeap.DownExit | time_heap/heap.go:146 | sift-down stops with the heap ordered, or with only an upward violation at the start if it never moved |
| TimeHeap.TimersHeap.constructor | time_heap/heap.go:139-143 | a new heap is empty |
| TimeHeap.TimersHeap.Swap | time_heap/heap.go:147-151 | exchanges two entries and rewrites both ids to their new positions; the multiset and `id == position` are kept |
| TimeHeap.TimersHeap.Push | time_heap/heap.go:153-157 | appends the entry with `id` set to its position `n-1` |
| TimeHeap.TimersHeap.Pop | time_heap/heap.go:159-166 | removes and returns the last entry; the others are unchanged |
| TimeHeap.TimersHeap.Up | time_heap/heap.go:45 | sift-up restores heap order over the first n entries, keeping the multiset, `id == position` and the entries beyond n, and returns where the entry came to rest |
| TimeHeap.TimersHeap.Down | time_heap/heap.go:45 | sift-down over the first n entries restores order if it moved anything; if not, nothing changed and at most an upward violation at the start remains |
| TimeHeap.TimersHeap.HeapPush | time_heap/heap.go:35 | the heap stays ordered with ids matching positions, gains exactly the new entry, and reports the position where it rests |
| TimeHeap.TimersHeap.Remove | time_heap/heap.go:45 | removes exactly the entry at the given position and returns it; the heap is one shorter, ordered, with ids matching positions |
| TimeHeap.TimersHeap.Fix | time_heap/heap.go:67 | restores heap order after one entry changed, keeping length, multiset and ids |
| TimeHeap.TimersHeap.Sift | time_heap/heap.go:45 | down, then up if down did not move: heap order restored over the first n entries, the rest untouched |
| TimeHeap.FiredTasks | time_heap/heap.go:59 | one dispatched task per fired entry, in firing order |
| TimeHeap.Rearmed | time_heap/heap.go:61-62 | the fired entries that come back: only `ExpireEvery` ones, each due `dura` after `now` |
| TimeHeap.Heap.NewAndRun | time_heap/heap.go:20-30 | an empty heap with the given pool size |
| TimeHeap.Heap.Add | time_heap/heap.go:32-40 | inserts exactly one new entry due `now + timeout`, keeps heap order and ids, and returns the entry's actual position |
| TimeHeap.Heap.Remove | time_heap/heap.go:42-48 | -1 is a no-op; otherwise exactly the entry at that position is removed, with heap order and ids restored |
| TimeHeap.Heap.FireRoot | time_heap/heap.go:56-67 | delivers the due root's task; an `ExpireEvery` root is replaced by itself due at `now + dura`, any other root is removed; heap order restored |
| TimeHeap.Heap.FireDue | time_heap/heap.go:55-72 | the loop fires at most the initial length of roots, stops early only when the root is not due, keeps the ledger, fires the old root first, and keeps deadline order when no period is negative |
| TimeHeap.Heap.Drain | time_heap/heap.go:51-83 | at most the initial length of rounds, each firing a root that was strictly due; stopping early means nothing left is due; the heap equals the old heap minus the fired entries plus their re-armed copies; delivered tasks are the fired ones in order; the first entry fired is the old root; when no recurring entry has a negative period, fired deadlines never decrease and no entry left behind is earlier than the last one fired; returns the length and `root.ts - now` (0 when empty), which bounds every remaining deadline |
| TimeHeap.DeliveredSnoc | time_heap/heap.go:59 | firing one more entry appends its task to the dispatched tasks |
| TimeHeap.AccountedSnoc | time_heap/heap.go:57-67 | one more drain round keeps the ledger between heap, fired and re-armed entries |
| TimeHeap.FireBalance | time_heap/heap.go:61-64 | the multiset balance survives firing one more entry, for both kinds of expiry |
| TimeHeap.InOrderSnoc | time_heap/heap.go:56-67 | firing the earliest due entry and re-arming it at `now + dura >= now` keeps the fired deadlines ascending and none left behind earlier than the last fired |
| TimeHeap.DrainedSnoc | time_heap/heap.go:55-72 | one more round keeps the ledger, the first-fired root, and deadline order when no period is negative |
| TimeHeap.RearmedSnoc | time_heap/heap.go:61-62 | the re-armed list grows by the fired entry exactly when it is of kind `ExpireEvery` |

## Left out

- Worker pools and task dispatch (`startWorkerPool`, `taskDeliverChan`): delivering a task is appending it to a ghost sequence.
- The event and wake loops: `Wheel.run`, `Stop`, `customEventChan`, the ticker, `Heap.Run`'s outer wait loop, `wakeup` and `chWakeUp`. These are concurrency plumbing; only the bodies they call are modelled (`add`, `del`, `tick`, `boomTimerFun`).
- `sync.Mutex` and `sync.Map`: each engine has one logical writer, so the cancellation map is a plain `map`.
- The wall clock: each `time.Now()` is a `now` parameter. `Statem.Machine.Tick` takes both the caller's `timeNow` and the `now` used for a new deadline.
- Callbacks (`EntryCallback`, `ExitCallback`, the keyed `Callback`, tasks): only their invocation is recorded. Callbacks that re-enter the machine are not modelled.
- The `CurState` handed to callbacks is a value here. Aliasing through the `*CurState` and `*KVTimeout` pointers is not modelled. For example, a caller mutating a record after inserting it is not modelled.
- `StateAll` (statem/statem.go:99-101) just returns the current state; it is the `curState` field.
- Go map iteration order. The second validation loop walks the map in random order; the model walks the slice. When several successors dangle, the model reports the first in slice order, whereas Go may report any of them. `Tick` fires due keys in an unspecified order, which the model leaves unspecified as well.
- 64-bit overflow of deadlines and of `now + timeout` is not modelled: integers are unbounded.
- `TimeWheel.Wheel.AddTimer` requires the placement slot to be a valid index. Go panics on a negative index, which the int32 wrap-around can produce. `TimeWheel.PlaceSlotAhead` proves the index valid while `timeout/tick + curSlot` fits in an int32.
- The `key` field of the wheel's timer record is never assigned by the source, so it is not modelled.
- The heap's source defects are not replicated:
  - `mu` is never initialised;
  - `Push` asserts a `timer` value where a `*timer` is passed;
  - `Add` reads `timers[len]`, one past the end.

  `TimeHeap.Heap.Add` returns the position where the new entry actually rests after sift-up.
- `TimeHeap.Heap.Add`: the returned position is only good until the next mutation, because every sift moves entries. Callers may expect a stable handle; the model does not claim one.
- `TimeHeap.Heap.Remove` requires `idx == -1` or a position in range. Go panics on any other index, so removing with a stale handle is not the no-op a caller might expect. The model follows the code.
- `container/heap` is not part of this model. Its `up`, `down`, `Push`, `Remove` and `Fix` are written out as the standard algorithms over `Less` and `Swap`.
- `TimeHeap.TimersHeap.Pop` does not model clearing the vacated slot (`id = -1`, zero value): that slot is no longer part of the slice.
- `TimeHeap.Heap.NewAndRun` requires `workerPoolNum >= 0`, because `make` panics on a negative channel size.
- `TimeWheel.NewAndRun` requires `workerPoolNum < 2^30` once the argument checks pass. From 2^30 on, the int32 channel capacity `workerPoolNum*2` wraps negative and `make` panics at time_wheel/wheel.go:48; the model does not model that panic.
- `TimeHeap.Heap.Drain` and `TimeHeap.Heap.FireDue` promise deadline order only when no recurring entry has a negative period. With a negative `dura` a re-armed entry is already due, and Go may fire it again before later deadlines.
- `TimeWheel.Wheel.Valid` includes `num == |elems|` for every slot. That holds because `TimeWheel.Wheel.DelLocations` calls the corrected `WheelSlot.Slot.Del`; with `del` as written, `num` drifts (see Findings). The source never reads `num`.
- `TimeWheel.Wheel.constructor` and `TimeWheel.NewAndRun`: durations are integers (nanoseconds), and `time.Duration` overflow is not modelled.

## Findings

| source | as written | input that shows it | evidently intended | confidence | as-written member | corrected member |
|---|---|---|---|---|---|---|
| time_wheel/slot.go:34-39 | `del` decrements `num` whenever the element is non-nil, even when `list.Remove` ignores it because the element is no longer in the list | a timer added under key k expires in `tick` (popped, `num` decremented), then `del(k)` passes its stale location to `del`: the list is unchanged but `num` drops again, one below the list length | `num` is decremented only when an element is actually removed, so it always equals the list length | not executed | WheelSlot.StaleDelSkewsCount | WheelSlot.Slot.Del |
