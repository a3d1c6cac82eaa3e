# TinyMUD-Unity runtime core in Dafny

This project models four sequential cores of the TinyMUD-Unity runtime and proves properties of them.

- **The timer wheel** (`Clock.cs`, module `Clocks`). Running clocks live in a set sorted by (deadline in µs, creation index). `Start`/`Stop` insert and remove a clock. `Clock.Update` fires every due clock in key order: it re-inserts a periodic clock one period later and retires a one-shot clock. The pure specification is `Pass` on a sorted sequence of entries. The `Wheel` and `Clock` classes update their fields in place and are proved against `Pass`. The class invariant is that a clock is in the set exactly when its deadline is not -1.
- **The dispatcher** (`Loop.cs`, module `Loops`). The static state of `Loop` is one `Dispatcher` object:
  - the cross-thread action list and its swap buffer;
  - the polled-operation list with its pooled waiters;
  - the captured worker exceptions;
  - the recurring callbacks, sorted by name, with their dirty flag;
  - the idle list;
  - the event bus.

  `Tick` is one `Updater.Update` frame. It returns the trace of callbacks it runs and the exceptions it hands to `errfn`, in order.
- **The continuation engine** (`Async.cs`, module `Asyncs`). A workflow is a sequence of step outcomes. A step can complete through `Loop.Execute`, in which case the rest of the run executes inside the loop's try/catch. `Run`, `Run<T>` and the fire-and-forget `Run` are recursive functions over that sequence. `ReturnResult`, `Primitive<T>` and `Async.Empty` are classes with `result`/`completed` fields. A primitive's callback runs inline (before its action returns), later, or never. `Parallel` sets a flag array the way `ExecuteAndSet` does.
- **Buffers and framing** (`Network.cs`, module `Network`):
  - `ByteBuffer`, a window `data[offset..offset+length]` over an array that only ever doubles from 1024 bytes;
  - its free-list pool;
  - `BufferSegment` and the capacity gate of `Send`;
  - NUL-terminated string requests (`UTF8StringRequest.Read`, `Request.Input`);
  - the `host:port` split of `Connect`.

`Common` holds the shared pieces: `Option`, the `int32` and `byte` ranges, 32-bit wrap-around, and ordinal string order.

Callbacks are opaque numbers. A callback "throws" when its number is in a `failing` set, so every trace is a function of the inputs. The current time is an integer parameter `now`. "Is this the loop thread" is a boolean parameter.

## Model

| member | source | states |
|---|---|---|
| Clocks.StartDeadline | Clock.cs:144-149 | The deadline `Start(time)` sets lies exactly `time`·1000 µs after `now`. A positive time puts it in the future, one period step after `now`; a zero time makes the clock due at once. For any realistic `now` it is never negative, so never the "stopped" mark -1. |
| Clocks.StartDeadlineAsWritten | Clock.cs:147 | The deadline with the 32-bit product of the source. It equals the intended deadline whenever \|time\| ≤ 2147483. |
| Clocks.Step | Clock.cs:89 | A periodic clock moves at least 1 µs. It moves by its period in µs when the period is positive, and by 1 µs otherwise. |
| Clocks.StepAsWritten | Clock.cs:89 | The step with the 32-bit product of the source. It is at least 1 and agrees with `Step` whenever \|time\| ≤ 2147483. |
| Clocks.PeriodOverflowAsWritten | Clock.cs:89 | For a period of 2147484 ms, the code as written puts the deadline in the past and advances a periodic clock by only 1 µs. The intended values are `now` + 2147484000 and 2147484000. |
| Clocks.Insert | Clock.cs:148 | `SortedDictionary.Add` makes the set one entry longer and adds exactly the new index to the index set. |
| Clocks.InsertMultiset | Clock.cs:148 | Adding a clock adds exactly its entry and drops none. |
| Clocks.InsertWellFormed | Clock.cs:168-177 | Adding a clock that is not scheduled keeps the set sorted by (deadline, index), each clock at most once. |
| Clocks.Remove | Clock.cs:155 | `SortedDictionary.Remove` takes exactly that index out of the index set. A clock that is not scheduled leaves the set unchanged. |
| Clocks.RemoveWellFormed | Clock.cs:155 | Removing a clock keeps the set sorted and free of duplicates. |
| Clocks.InsertSplit | Clock.cs:148 | The new entry goes in at its sorted position; the entries before and after it are unchanged. |
| Clocks.RemoveSplit | Clock.cs:155 | Removing a scheduled index deletes the one entry at its position and keeps every other entry in order. |
| Clocks.Advance | Clock.cs:89 | A rescheduled clock keeps its index and period, and its deadline strictly increases. |
| Clocks.NextFacts | Clock.cs:86-95 | Firing the earliest due clock keeps the set well-formed and strictly shrinks the remaining work, so the loop ends. Every remaining entry sorts after the fired one. A one-shot clock leaves the index set. A periodic clock comes back exactly once, one step later. |
| Clocks.PassShape | Clock.cs:73-104 | After a pass, the set is well-formed, every remaining deadline is later than `now`, and no index was added. The fired entries are in key order, all were due, and the first is the earliest scheduled clock. |
| Clocks.PassFiresEveryDue | Clock.cs:84-85 | Every clock whose deadline is ≤ `now` fires in the pass. |
| Clocks.PassKeepsLater | Clock.cs:84-85 | A clock whose deadline is later than `now` stays scheduled, unchanged, and does not fire. |
| Clocks.PassRetiresOneShot | Clock.cs:92-95 | A due one-shot clock fires exactly once and is no longer scheduled. |
| Clocks.PassNeverAddsIndex | Clock.cs:73-104 | Only scheduled clocks fire. |
| Clocks.PassReschedulesPeriodic | Clock.cs:84-94 | Every due periodic clock is still scheduled after the pass, with the same period. Its new deadline is later than both `now` and its old deadline, and at most one step after `now`: it catches up by whole periods. |
| Clocks.PassKeepsPeriodicIndex | Clock.cs:87-90 | The index of a due periodic clock is still in the set after the pass. |
| Clocks.PassIndices | Clock.cs:84-95 | After a pass the scheduled indices are the old ones minus exactly those of the due one-shot clocks. |
| Clocks.Retime | Clock.cs:112 | Setting a clock's `Time` changes the period of exactly that clock's entry, and no deadline, index or position. |
| Clocks.RetimeKeeps | Clock.cs:112 | A period change keeps the set well formed with the same indices, and every other clock's entry stays as it was. |
| Clocks.RetimedFires | Clock.cs:87-89 | A due clock whose `Time` was set to a periodic `t` after it was scheduled is rescheduled by the next pass with period `t`, at most one step of `t` after `now`. |
| Clocks.PassStep | Clock.cs:74-104 | When the earliest clock is due, the pass fires it first and then goes on from the set in which it was fired and rescheduled. |
| Clocks.AddPosAgrees | Clock.cs:168-177 | The position the comparer finds for a clock among the scheduled clocks is where `Insert` puts its entry. |
| Clocks.RemovePosAgrees | Clock.cs:155 | Searching the scheduled clocks for an index finds the entry `Remove` deletes. |
| Clocks.RemoveHead | Clock.cs:86 | Removing the earliest clock of a well-formed set drops its first entry. |
| Clocks.FailedIds | Clock.cs:96-103 | Only callbacks that throw reach `error`, at most one per call. |
| Clocks.FailedIdsAppend | Clock.cs:96-103 | One more call hands its exception to `error` exactly when it throws, after the earlier ones. |
| Clocks.Wheel.constructor | Clock.cs:69 | The wheel starts with no clocks, no entries and the counter at 0. |
| Clocks.Wheel.AddClock | Clock.cs:148 | `clocks.Add(c)` places the clock where the comparer orders it. The entries become `Insert` of the old entries, and the index joins the running set. |
| Clocks.Wheel.RemoveClock | Clock.cs:155 | `clocks.Remove(c)` reports whether the clock was scheduled. The entries become `Remove` of the old entries, and no scheduled clock keeps that index. |
| Clocks.Wheel.Fire | Clock.cs:86-95 | Firing the earliest clock turns the entries into `Next` of the old entries and keeps the wheel invariant, including the stopped marks. |
| Clocks.Wheel.Later | Clock.cs:84-85 | When the earliest clock is later than `now`, a pass fires nothing and leaves the set as it is. |
| Clocks.Wheel.Turn | Clock.cs:74-104 | One iteration of the loop. It either stops with the rest of the pass empty, or fires one clock, strictly shrinking the remaining work. Either way it keeps the fired prefix, the `Timeout` calls and the reported exceptions in step with `Pass`. |
| Clocks.Wheel.Update | Clock.cs:71-105 | `Clock.Update(error)` leaves the set `Pass(old, now).0` and fires exactly `Pass(old, now).1`, in key order. It calls each fired clock's `Timeout` once, in that order, and hands exactly the throwing ones to `error`. A stopped clock stays stopped. |
| Clocks.Clock.constructor | Clock.cs:114-132 | A new clock is inert: deadline -1, `Time` is `Once`, not running. Its index is strictly larger than that of every earlier clock. |
| Clocks.Clock.Running | Clock.cs:134-137 | `IsRunning` is true exactly when the clock is in the sorted set. |
| Clocks.Clock.SetTime | Clock.cs:112 | Assigning the public `Time` field of a clock, running or not, keeps the wheel invariant, and the scheduled set becomes `Retime` of the old one, so the next firing uses the new period. |
| Clocks.Clock.Stop | Clock.cs:151-158 | `Stop` removes the clock from the set and marks it -1. On an inert clock it changes nothing. |
| Clocks.Clock.StartAfter | Clock.cs:144-149 | `Start(time)` stops the clock if it runs, then schedules it once at `now` + time·1000. |
| Clocks.Clock.Start | Clock.cs:139-142 | `Start()` starts the clock with its own period, and with 0 when the period is negative. |
| Clocks.Clock.Timeout | Clock.cs:160-166 | `Timeout` calls the clock's callback: with nothing, with the clock, or (for `Clock<T>`) with its value, as the constructor chose. The argument carries this clock's index. |
| Loops.CallsRuns | Loop.cs:411-421 | Running callbacks each in its own try/catch runs every one, in order. Exactly the throwing ones are handed to `errfn`, in order. |
| Loops.RunAll | Loop.cs:411-421 | The loop over a callback list produces the trace of the try/catch calls of all of them, in order. |
| Loops.ReportingReports | Loop.cs:391-399 | Handing the captured exceptions to `errfn` reports each one, in order, and runs no callback. |
| Loops.PartitionFilters | Loop.cs:362-369 | The partition loop keeps exactly the waiting slots and moves out exactly the done ones, each in its original order. |
| Loops.FiltersMembers | Loop.cs:362-369 | A slot is kept exactly when it is pending and its operation is not done. It fires exactly when it is pending and its operation is done. A cancelled slot does neither. |
| Loops.FiltersWaiters | Loop.cs:362-369 | Every waiter of a pending slot is either kept or fired, never both and never lost. |
| Loops.EmissionsCalls | Loop.cs:374-385 | Firing the due waiters runs, in order, the actions of those whose operation has the waiter's type. |
| Loops.RefillPools | Loop.cs:165-170 | After the firing loop, each waiter stack has grown by exactly the waiters of its type whose action did not throw, in firing order. |
| Loops.UpsertSorted | Loop.cs:214-220 | `always_actions[name] = action` keeps the recurring callbacks in strictly increasing key order. |
| Loops.UpsertNames | Loop.cs:214-220 | Setting a name binds exactly that name and keeps every other name. |
| Loops.UpsertLookup | Loop.cs:214-220 | After setting a name it maps to the new callback (replacing an old one), and every other name maps as before. |
| Loops.DeleteSorted | Loop.cs:222-226 | Removing a name keeps the keys in strictly increasing order. |
| Loops.DeleteLookup | Loop.cs:222-226 | After removing a name it is unbound, also when it was absent, and every other name maps as before. |
| Loops.DeliveryCalls | Loop.cs:258-268 | A broadcast runs, in subscription order, each delegate whose wrapper accepts the event. Its exceptions go to `errfn`. |
| Loops.CopyAll | Loop.cs:253-257 | The snapshot list holds exactly the subscriptions, in order. |
| Loops.RunDelivery | Loop.cs:258-268 | The loop over the snapshot produces the trace of `Delivery`: each wrapper in order, its exception going to `errfn`. |
| Loops.WithoutCounts | Loop.cs:315-323 | `Dictionary.Remove(action)` takes out exactly one occurrence of the delegate, if any. |
| Loops.WithoutLength | Loop.cs:315-323 | Unsubscribing shortens the subscriptions by one exactly when the delegate was subscribed. |
| Loops.WithoutDelegates | Loop.cs:315-323 | Unsubscribing leaves exactly the other delegates, still distinct. |
| Loops.WithoutSnoc | Loop.cs:285-323 | Unsubscribing a delegate right after subscribing it restores the previous subscriptions. |
| Loops.CancellingSlots | Loop.cs:150-155 | `Cancel(op)` nulls exactly the slots of `op`, leaves every other slot as it was, and adds no waiter. |
| Loops.StrikeAll | Loop.cs:150-155 | The loop of `Cancel` computes exactly `Cancelling` of the list. |
| Loops.CancelSilences | Loop.cs:145-156 | A cancelled operation is silent: the next poll neither keeps nor fires any slot of it. |
| Loops.FailedThrowing | Loop.cs:450 | The exceptions the timer pass hands to `errfn` are those of the clock callbacks that throw, in firing order. |
| Loops.Waiter.constructor | Loop.cs:173-176 | A newly allocated waiter has the requested type and holds the action. |
| Loops.Dispatcher.constructor | Loop.cs:16-30 | All queues, pools and dictionaries start empty. The dirty flag is clear and `errfn` is the default. |
| Loops.Dispatcher.Execute | Loop.cs:58-78 | On the loop thread the action runs at once, its exception going to `errfn`, and the queue is unchanged. From another thread it is only appended to `actions`. |
| Loops.Dispatcher.Capture | Loop.cs:113-119 | A worker exception is appended to the captured exceptions. |
| Loops.Dispatcher.Acquire | Loop.cs:173-180 | The waiter comes from the top of its type's stack when that is not empty, and is newly allocated otherwise. It holds the new action, and no other waiter's action changes. |
| Loops.Dispatcher.Wait | Loop.cs:125-143 | A null operation or action throws `ArgumentNullException` and changes nothing, no waiter's action included. Otherwise exactly one slot (operation, waiter of that type holding the action) is appended. The waiter is popped from the top of its type's stack, or is newly allocated (and joins the known waiters) when the stack is empty. No other waiter's action changes. |
| Loops.Dispatcher.Register | Loop.cs:132-142 | The registration once both arguments are present: the slot appended at the end, the stack popped or the waiter allocated, no other waiter's action changed. |
| Loops.Dispatcher.CancelKeeps | Loop.cs:145-156 | Cancelling keeps every remaining slot armed and the waiters distinct. |
| Loops.Dispatcher.Cancel | Loop.cs:145-156 | A null operation throws and changes nothing. Otherwise the list becomes `Cancelling` of the old list. |
| Loops.Dispatcher.RunAlways | Loop.cs:214-220 | A null action throws and changes nothing. Otherwise the name is bound to the action (overwriting) and the dirty flag is set. |
| Loops.Dispatcher.RemoveAlways | Loop.cs:222-226 | The name is unbound and the dirty flag is set, also when the name was absent. |
| Loops.Dispatcher.Idle | Loop.cs:228-233 | A null action throws and changes nothing. Otherwise it is appended to the idle list. |
| Loops.Dispatcher.Error | Loop.cs:325-344 | The error callback becomes `fn`, or the default for null. |
| Loops.Dispatcher.Subscribe | Loop.cs:274-313 | Subscribing a delegate already subscribed to the message throws (`Dictionary.Add`) and changes nothing. Otherwise the subscription is added at the end, creating the message's entry if needed. |
| Loops.Dispatcher.Unsubscribe | Loop.cs:315-323 | Removes exactly that delegate's subscription and deletes the message's entry when it becomes empty. It changes nothing when the delegate was not subscribed. |
| Loops.Dispatcher.Broadcast | Loop.cs:240-272 | A null event throws. Otherwise the subscribers of `msg` are called in order on the event, their exceptions going to `errfn`. The snapshot list returns to the list pool. |
| Loops.Dispatcher.BroadcastEmpty | Loop.cs:235-238 | `Broadcast(msg)` delivers the null event to the subscribers of `msg`. |
| Loops.Dispatcher.Deliver | Loop.cs:246-271 | The subscribers are copied into a list taken from the list pool, or a new one when the pool is empty, and then called in order. The list is cleared and pushed back, so the pool never shrinks. |
| Loops.Dispatcher.SplitKeeps | Loop.cs:362-373 | The partition keeps the kept and the due slots armed, each with distinct waiters, and the two groups share no waiter. |
| Loops.Dispatcher.Split | Loop.cs:362-373 | The swap-and-partition leaves `operations` equal to the kept slots and `operations_action` equal to the due slots, in order. |
| Loops.Dispatcher.Emit | Loop.cs:165-170 | `Emit` runs the action when the waiter accepts the operation. Unless the action throws, it then clears the action and pushes the waiter on its stack. When it throws, nothing else changes. |
| Loops.Dispatcher.FireStep | Loop.cs:376-384 | One turn of the firing loop extends the pools and the trace by exactly the next waiter's emission. That waiter ends holding no action, or its own when the action threw, and every other due waiter keeps its action. |
| Loops.Dispatcher.FireAll | Loop.cs:374-385 | The firing loop leaves the pools as `Refill` of the old pools and emits exactly `Emissions` of the due jobs. Each fired waiter ends holding no action, or its own when the action threw. Every waiter that was not due keeps its action. |
| Loops.Dispatcher.FireDue | Loop.cs:374-385 | The due waiters fire in registration order, each emission in its own try/catch. The pools are refilled accordingly. Each fired waiter ends holding no action, or its own when the action threw; every other waiter keeps its action. |
| Loops.Dispatcher.PollOperations | Loop.cs:360-387 | The poll keeps exactly the waiting slots and fires exactly the done ones, in order. It refills the pools with the waiters that did not throw. Fired waiters end holding no action, or their own when it threw; every waiter not fired keeps its action. Its frame leaves the other queues, the recurring callbacks, the event bus and `errfn` unchanged. |
| Loops.Dispatcher.Poll | Loop.cs:362-385 | The partition and firing on a non-empty list: the same results as the poll, with the swap list empty and `operations_action` holding exactly the due slots until the poll clears it. |
| Loops.Dispatcher.Service | Loop.cs:391-446 | Captured exceptions, cross-thread actions and recurring callbacks, in that order: each queue ends holding only what arrived during its drain, and the recurring callbacks run in key order. The trace is theirs, concatenated. |
| Loops.Dispatcher.DrainExceptions | Loop.cs:391-399 | Every captured exception goes to `errfn` in order, and the list is emptied. |
| Loops.Dispatcher.DrainActions | Loop.cs:403-423 | Exactly the actions queued at swap time run, in append order. Actions that arrive during the drain are what the list holds afterwards, for the next tick. |
| Loops.Dispatcher.RunRecurring | Loop.cs:427-446 | The firing list is rebuilt in key order when out of date and the flag is cleared. The recurring callbacks run in key order. |
| Loops.Dispatcher.DrainIdles | Loop.cs:453-470 | Exactly the idles queued at swap time run, in order. Idles added during the drain wait for the next tick. |
| Loops.Dispatcher.Drain | Loop.cs:360-446 | The first four blocks in their fixed order: poll, captured exceptions, cross-thread actions, recurring callbacks. The trace is theirs, concatenated in that order. The fired waiters and the untouched ones end as in the poll. The frame leaves the event bus, `errfn`, the list pool, the recurring set and the idles unchanged. |
| Loops.Dispatcher.Finish | Loop.cs:449-470 | The timer pass fires exactly `Pass` of the wheel. Each fired entry's clock is in the wheel, and the trace's timer part is those clocks' `Timeout` calls, in firing order. The idles run after the timer callbacks. No waiter's action changes (in particular not those of the waiters fired earlier in the frame), and the operations, pools, queues and recurring callbacks stay as they were. |
| Loops.Dispatcher.Tick | Loop.cs:355-472 | One frame: poll, exceptions, actions, recurring callbacks, timer pass, idles, in that order. The trace is the concatenation of theirs. Its timer part is the `Timeout` calls of the clocks of `Pass` of the wheel, in firing order. Each queue ends holding only what arrived during its drain. The fired waiters end holding no action (their own when it threw), every other waiter keeps its action, and the event bus, `errfn`, the list pool and the recurring set are unchanged. |
| Asyncs.Ids | Async.cs:670-691 | The identities of succeeding steps, one per step, in order. |
| Asyncs.RunPlain | Async.cs:670-691 | `Run` never executes more steps than the workflow has. |
| Asyncs.RunPlainShields | Async.cs:181-212 | After a step that completes through `Loop.Execute` (a primitive begun on the loop thread), the rest of the run executes inside the loop's try/catch. An exception escaping the rest, such as one a later `ExecuteStep` throws, goes to the loop's `errfn` and never reaches the caller of `Run`. Every other ending is unchanged. |
| Asyncs.RunFor | Async.cs:632-668 | `Run<T>` never executes more steps than the workflow has. |
| Asyncs.Forget | Async.cs:693-713 | The fire-and-forget `Run` never executes more steps than the workflow has. |
| Asyncs.RunPlainSkip | Async.cs:670-691 | Leading succeeding steps are executed in order, and `Run` then continues as on the rest. |
| Asyncs.RunForSkip | Async.cs:632-668 | The same for `Run<T>`. |
| Asyncs.RunPlainStops | Async.cs:670-691 | `Run` stops at the first step that does not continue, and nothing after it is executed. A step failure and a `MoveNext` exception reach `cont`. An exception thrown by a step's `ExecuteStep` escapes to the caller. A `Result<T>` in a plain workflow escapes as `InvalidOperationException`. |
| Asyncs.RunExhausts | Async.cs:632-691 | On exhaustion, `Run` calls `cont(null)` once. `Run<T>` reports the missing result as `InvalidOperationException`. |
| Asyncs.RunForResult | Async.cs:632-668 | `Run<T>` completes with the value of the first `Result<T>` and does not advance further. |
| Asyncs.RunForStops | Async.cs:632-668 | A failing step completes `Run<T>` with `default(T)` and the failure. |
| Asyncs.ForgetRun | Async.cs:693-713 | The fire-and-forget `Run` behaves as `Run` with a continuation that hands any failure to `errfn`. This includes what the loop's try/catch takes from it. |
| Asyncs.PolicyDelivers | Async.cs:438-449 | A failure reaches exactly one of `cont` and `errfn`. With `failOnError` false, `cont` never sees it. |
| Asyncs.ReturnNothingFailure | Async.cs:466-480 | A failing nested workflow stops at the failing step. The failure goes to `cont` when `failOnError`, and otherwise to `errfn` with `cont(null)`. |
| Asyncs.ReturnResult.constructor | Async.cs:421-432 | A new `ReturnResult` holds its workflow and policy, with no result and not completed. |
| Asyncs.ReturnResult.ExecuteStep | Async.cs:434-450 | `ExecuteStep` applies the policy to how the nested run ended. A nested exception the loop caught leaves the step silent and shows up as caught. When it completes, `result` and `completed` are set before `cont`, also on failure. |
| Asyncs.ResultOf | Async.cs:508-516 | Reading `Result` gives the stored value exactly when the operation has completed, and throws before. |
| Asyncs.ReturnResultThenRead | Async.cs:421-451 | A nested workflow that returns `v` continues with no failure, and `Result` then reads `v`. |
| Asyncs.RouteDefers | Async.cs:181-212 | A step begun on the loop thread completes on the loop thread through `Loop.Execute`. It runs at once when the callback is already there, and is queued exactly when it is not. Either way, an exception from `cont` is caught and goes to the loop's `errfn`, and this happens exactly for steps begun on the loop thread. A step begun elsewhere completes by a plain call on the callback's thread. A callback never called never completes it. |
| Asyncs.BeginEndThenRead | Async.cs:232-293 | For a callback that runs inline: a begin/end primitive whose `end` throws continues with that exception and `Result` reads `default(T)`. When `end` returns a value, it continues with no failure and `Result` reads the value. |
| Asyncs.PrimitiveOf.constructor | Async.cs:217-246 | A new primitive has no result and is not completed. |
| Asyncs.PrimitiveOf.Complete | Async.cs:259-261 | The completion stores the value and sets `completed` before continuing with the failure. |
| Asyncs.PrimitiveOf.ExecuteStep | Async.cs:248-293 | The signal to `cont` is `Primitive`'s. The result is stored before `ExecuteStep` returns exactly when the callback runs inline, and is untouched when the callback comes later or never. |
| Asyncs.PrimitiveOf.Callback | Async.cs:253-291 | A callback that comes after `ExecuteStep` returned is queued exactly when the step began on the loop thread and the callback runs on another; then nothing changes yet. Otherwise it stores the result, sets `completed` and continues with the failure on the spot. |
| Asyncs.PrimitiveThenRead | Async.cs:248-293 | Reading `Result` right after `ExecuteStep` gives the delivered value exactly when the callback ran inline. It throws when the callback comes later or never. |
| Asyncs.PrimitiveLaterThenRead | Async.cs:248-293 | With a later callback, `Result` throws right after `ExecuteStep`. Once the callback ran it gives the value, unless the completion was queued for the loop; once the loop has run the queued completion it gives the value. |
| Asyncs.EmptyStep.constructor | Async.cs:483-494 | `Async.Empty` starts holding its dummy value, not completed. |
| Asyncs.EmptyStep.ExecuteStep | Async.cs:483-494 | `Async.Empty` continues at once with no failure. |
| Asyncs.Sink.constructor | Async.cs:60 | The engine's error sink starts as the default. |
| Asyncs.Sink.Error | Async.cs:61-79 | `Async.Error(fn)` installs `fn`, or the default for null. |
| Asyncs.AllSet | Async.cs:141 | The flag scan answers whether every flag is set. |
| Asyncs.Arrive | Async.cs:137-142 | A branch sets exactly its own flag, and learns whether all flags are now set. |
| Asyncs.Parallel | Async.cs:123-144 | The continuation fires at most once. It fires exactly when there is at least one branch and every branch finishes. The failures of the branches reach `errfn` in order. |
| Network.PowerSizeIsDoubling | Network.cs:142-150 | Every array size a buffer can have is 1024·2^k. |
| Network.NextSize | Network.cs:142-146 | The doubling loop doubles at least once and until `need` fits, staying a power-of-two multiple of 1024. The result is the smallest such doubling. |
| Network.Place | Network.cs:158 | `Array.Copy` lands the bytes at the target position and keeps those before it. |
| Network.ByteBuffer.constructor | Network.cs:89-94 | A fresh buffer has a 1024-byte array, offset 0 and length 0. |
| Network.ByteBuffer.Compact | Network.cs:135-139 | Moving the live bytes to the front keeps them and the array. |
| Network.ByteBuffer.Grow | Network.cs:140-151 | Reallocating keeps the live bytes at offset 0 in an array the smallest doubling that fits. |
| Network.ByteBuffer.CheckSize | Network.cs:130-153 | Afterwards `n` more bytes fit and the live bytes are unchanged. Nothing moves when they already fit. The buffer compacts in place exactly when they fit the array and the offset is at least half of it. Otherwise it reallocates. |
| Network.ByteBuffer.Write | Network.cs:155-160 | The bytes are appended after the existing contents, and the length grows by `n`. |
| Network.ByteBuffer.WriteByte | Network.cs:169-174 | One byte is appended. |
| Network.ByteBuffer.Pop | Network.cs:176-186 | The first min(n, length) bytes are dropped. An emptied buffer restarts at offset 0. |
| Network.ByteBuffer.Reset | Network.cs:188-192 | The buffer is empty at offset 0. |
| Network.WriteThenPop | Network.cs:155-192 | Writing bytes into an empty buffer and popping all of them returns those bytes and leaves an empty buffer at offset 0. |
| Network.Pool.constructor | Network.cs:96 | The free list starts empty. |
| Network.Pool.New | Network.cs:98-109 | `New` hands out the most recently released buffer when there is one, and otherwise a fresh empty 1024-byte buffer. |
| Network.Pool.Release | Network.cs:111-118 | `Release` empties the buffer and pushes it on the free list. |
| Network.ReleaseThenNew | Network.cs:98-118 | A released buffer is the next one `New` hands out, empty. |
| Network.MakeSends | Network.cs:16-66 | What each way of making a segment sends: the whole array, a prefix, a range, the bytes at a pointer, one byte, or a 0 for a null pointer. |
| Network.WriteSegment | Network.cs:120-128 | `Write(seg)` appends exactly the segment's bytes when it can be copied. When the copy throws, the contents are unchanged and the failure is reported. |
| Network.FirstUnreadable | Network.cs:155-160 | The first segment that cannot be copied: every earlier one can. It equals the number of segments when all can. |
| Network.WriteAll | Network.cs:919-923 | The writes of `Send` append the segments in order up to the first that cannot be copied, and report whether and where one failed. |
| Network.WriteNext | Network.cs:922 | One more segment goes after the ones already written, or nothing changes when its copy throws. |
| Network.Send | Network.cs:874-927 | `Send` is refused exactly when the buffered length has reached the capacity, and then the buffer is unchanged. Otherwise the segments are appended in order, even past the capacity. It returns true exactly when every segment was copied. When a copy throws, the earlier segments stay written and the exception leaves `Send` before `SendQueue`. |
| Network.FirstZero | Network.cs:1078-1085 | The first 0 byte in the range, and no 0 before it, or none in the range. |
| Network.ChunkIntendedConsumes | Network.cs:1077-1085 | The intended scan consumes up to and including the first 0 of the `length` bytes at `offset`, or all of them when there is none. |
| Network.ChunkSplits | Network.cs:1077-1095 | The bytes buffered after a read end in 0 exactly when the range held a 0. Before it they are the pending bytes followed by the bytes up to that 0. |
| Network.ChunkAtStart | Network.cs:1077-1085 | At offset 0, the scan as written and the intended scan agree. |
| Network.ChunkAsWrittenSwallows | Network.cs:1078 | At offset 2 of "a\0b\0c", the scan as written consumes "b\0c" where the intended scan stops after "b\0". |
| Network.Scan | Network.cs:1078-1085 | The scan loop computes `Chunk`. |
| Network.Utf8Request.constructor | Network.cs:1071-1073 | A new request has no value and nothing pending. |
| Network.Utf8Request.Claim | Network.cs:1086-1087 | The pending buffer is reused, or one comes from the pool, holding exactly the pending bytes. |
| Network.Utf8Request.Stage | Network.cs:1086-1088 | The consumed bytes go after the pending ones. |
| Network.Utf8Request.Settle | Network.cs:1089-1094 | A 0 as the last buffered byte completes the value without the terminator and releases the buffer. Otherwise the bytes stay pending. |
| Network.Utf8Request.Read | Network.cs:1075-1095 | `Read` consumes up to and including the first 0. It then completes the value with the pending bytes plus those before the 0, leaving nothing pending. With no 0 it consumes everything and buffers it, leaving the value unchanged. |
| Network.Utf8Request.Reset | Network.cs:1111-1119 | The value is cleared and a pending buffer goes back to the pool. |
| Network.Utf8Request.Input | Network.cs:202-217 | `Input` completes exactly when the bytes hold a 0, reporting as consumed the bytes up to and including it, with the value as `Read` gives it. Otherwise it consumes everything and does not complete. An empty input does nothing. |
| Network.Echo | Network.cs:1103-1108 | The frame a string send puts on the wire, a string with no 0 byte followed by one terminating 0, is read back intact, and exactly the frame is consumed. The frame is built directly, not by running `Send`. |
| Network.Digits | Network.cs:504 | The decimal form is a non-empty run of digits. |
| Network.DigitsRoundTrip | Network.cs:508 | `Convert.ToInt32` of the decimal form gives the number back. |
| Network.LastColon | Network.cs:504 | The greedy host ends at the last ':' of the line. |
| Network.LineEnd | Network.cs:504 | With `RegexOptions.Multiline`, a line ends at the first line break. |
| Network.SplitRoundTrip | Network.cs:502-509 | A non-empty one-line host joined to a port in range with ':' splits back into that host and port. |
| Network.SplitNeedsColon | Network.cs:502-509 | A string without ':' never splits. |
| Network.ConnectAgree | Network.cs:502-527 | The two `Connect(hostport, …)` overloads dial the same endpoint. A malformed string throws `ArgumentException` in the synchronous one, and in the callback one is delivered through `Loop.Idle` instead. |

## Left out

- Threads, locks, `Interlocked`, and the thread-id check. "Is this the loop thread" is a boolean parameter, and each method runs without interleaving.
- Re-entrant callbacks. A callback is assumed not to touch the modelled state during a drain, except for what the `arrivals` parameters of `Tick`, `DrainActions` and `DrainIdles` add.
- Time sources (`Now`, `Elapsed`, `Uptime`, `UTCTime`, `LocalTime`, `Clock.Update()`, `Time.deltaTime`). `now` is an integer µs parameter at least 2^31·1000. The uptime step at the head of a tick is not part of this model.
- `Loop.ExecuteAsync` and its worker pool: a thread-pool scheduler. Only the capture of a worker exception (`Capture`) is modelled.
- Unity plumbing: `Initialize`, the `Updater` component, coroutine and operation wrappers. `AsyncOperation.isDone` is the `done` parameter.
- `Clock<T>.Value` is user data. A `Timeout` call carries the clock's index in its place.
- Dictionary enumeration order. `Dictionary<Delegate, …>` is modelled in insertion order. `SortedDictionary<string, …>` is modelled with ordinal string order, not the culture-sensitive default comparer.
- The list pool of `Broadcast` is only counted.
- UTF-8 encoding and decoding. A string value is kept as its bytes.
- `ByteBuffer.Write(IntPtr, …)` and `Marshal.Copy`. Foreign memory is a parameter of the segment write.
- The 32-bit `int` range of buffer offsets and lengths, including the overflow of `size << 1` for buffers over 1 GiB. `Pop` and `Write` with a negative count are excluded by `nat` parameters.
- The `\d` class of .NET regular expressions is taken as ASCII digits only.
- Sockets, `SendQueue`, `OnReceive`, `Listen`, DNS, `Dispose`. Only the capacity setting of `Settings` is a parameter of `Send`.
- Loops.Dispatcher.RunAlways, Loops.Dispatcher.RemoveAlways, Loops.Dispatcher.Subscribe, Loops.Dispatcher.Unsubscribe, Loops.Dispatcher.Broadcast: a null message or name and a null delegate to `Unsubscribe` are not modelled; names, messages and delegates are plain values. In the source, `RunAlways(null, a)` and `RemoveAlways(null)` set the dirty flag and then throw `ArgumentNullException` from the dictionary (Loop.cs:213-225). `Unsubscribe(msg, null)` throws from `Dictionary.Remove` when `msg` has subscriptions (Loop.cs:316-324). A null `msg` throws from `TryGetValue` in `Broadcast`, `Subscribe` and `Unsubscribe` (Loop.cs:247, 277, 318).
- Asyncs.RunPlain: a step that completes through `Loop.Execute` with a failure is modelled as `Fails`. The failure continues into the enclosing code, and that code runs inside the loop's try/catch. An exception it later throws (for example, a later step of an enclosing workflow) is not traced back to that try/catch. A `Shields` step carries the try/catch only for the rest of its own run.
- Asyncs.Parallel: the branches run one after another in index order, not concurrently. When an exception escapes a branch's fire-and-forget `Run` (a `Result<T>` in a plain workflow, or a step whose `ExecuteStep` throws), the loop stops there, and the reported failures are stated only for runs where nothing escapes. A branch whose exception the loop's try/catch takes neither sets its flag nor reports to `Async.errfn`.
- Network.Pool.Release: releasing a buffer that is already in the free list is excluded by its precondition, since the source would hand it out twice.
- Clocks.Clock.Timeout: a clock built with a null callback does nothing when it fires (Clock.cs:160-166). The model gives every clock a callback.
- Loops.Dispatcher.Subscribe: a null action is not modelled. The source first creates the message's empty dictionary and then throws `ArgumentNullException`, leaving the message with no subscription, which the dispatcher invariant excludes.
- Loops.Dispatcher.Tick: its frame names the whole wheel object, so it does not itself state that the clock counter and the wheel's bookkeeping stay unchanged. `Clocks.Wheel.Update`, which does the timer pass, states it.
- Network.WriteSegment: when a copy throws, the array growth that `checksize` may already have done is not modelled (the contents are the same either way). A pointer segment longer than the foreign memory counts as a copy that throws.
- `ExecuteAndWait`, `ReadToEndAsync` and the `Async.Exception` wrapper: blocking or stream I/O.

## Findings

| source | as written | input that shows it | evidently intended | confidence | as-written member | corrected member |
|---|---|---|---|---|---|---|
| Clock.cs:89 | `clock.Time * 1000` is a 32-bit `int` product, so it wraps around for periods above 2147483 ms (about 35.8 minutes), also at Clock.cs:147 | `Time` = 2147484: the product wraps to a negative value. `Start(2147484)` puts the deadline in the past, and a periodic clock advances by only 1 µs. | the period in µs as a 64-bit product | not executed | Clocks.PeriodOverflowAsWritten | Clocks.Step |
| Network.cs:1078 | `for (int i = offset; i < length; ++i)` compares the index with the count `length` instead of with `offset + length` | the packet "a\0b\0c" read from offset 2 with 3 bytes left: the scan checks only index 2, misses the 0 at index 3 and consumes all three bytes "b\0c" | scan the `length` bytes starting at `offset` | not executed | Network.ChunkAsWrittenSwallows | Network.Utf8Request.Read |

The second finding does not matter for the first request of a packet, since at offset 0 both scans agree (`Network.ChunkAtStart`). The model's `Read` uses the intended scan.
