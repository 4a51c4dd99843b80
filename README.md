# CrptApi request throttle

A Dafny model of the fixed-window rate limiter in the `CrptApi` client. The client sends documents to a remote registry and aims to allow at most `requestLimit` requests per window of one time unit. It keeps that bound except after an interrupted wait, and because the reset test is a strict `>`, a window lasts `requestInterval + 1` ms. The model covers two things:

- the constructor, which validates the limit and initialises the window;
- `updateRequestCount`, which every request passes through before it is sent.

`updateRequestCount` holds the client's `ReentrantLock` for its whole body, including the `Thread.sleep(100)` of its polling loop. Calls are therefore served strictly one after another. A sequential account of one call, and of a sequence of calls, describes the behaviour exactly.

Files:

- `time_units.dfy` (module `TimeUnits`): the time units and `toMillis(1)`, checked against a nanosecond scale.
- `fixed_window.dfy` (module `FixedWindow`): the window state as values. `Observe` is the reset test, `Wait` is the polling loop, `Call` is one whole call and `Run` is a sequence of calls. The module also holds the lemmas about them.
- `crpt_api.dfy` (module `Api`): the class `CrptApi`. Its two `const` fields are the final configuration and its two `var` fields the window state. `Create` models the constructor, including the exception it throws. `UpdateRequestCount` is the imperative loop, proved equal to `Call`.

The clock is an input:

- `now` is the reading taken on entry.
- Each `Sleep` value says how one `Thread.sleep(100)` ended: with a new clock reading (`Slept(t)`) or with an `InterruptedException` (`Interrupt`).
- If the supplied readings run out while the quota is still used up, the outcome is `Blocked`. The call has not returned, and its lock keeps every later call out.

`requestCount` is a Java `int`, and its `++` is modelled with two's-complement wrap-around (`Inc32`). Timestamps are unbounded integers.

Three points where `CrptApi.java` behaves differently from what one might expect of a rate limiter:

- **Interruption.** One might expect an interrupted wait to fail without counting a permit. Instead, lines 80-84 catch the `InterruptedException`, restore the thread's interrupt flag and still increment `requestCount`; the caller then goes on to send its request. The model returns `GrantedDespiteInterrupt` with the increment applied. `CallInterruptedOverrun`, `InterruptExceedsLimit` and `RunOverrunWithinOneWindow` show that the limit is exceeded by one per interrupted call.
- **Lock during the wait.** One might expect a waiting caller to let go of the lock while it pauses. Instead, the `Thread.sleep(100)` at line 73 runs while the lock taken at line 63 is held, so every other caller waits behind it.
- **Zero interval.** One might expect the window to be at least one millisecond long. Instead, `TimeUnit.toMillis(1)` at line 36 truncates to 0 for `NANOSECONDS` and `MICROSECONDS`, and nothing guards against it. With a zero interval, any clock advance of one millisecond resets the window.

The window start never decreases, even if the clock goes backwards. A reset needs `now - lastRequestTimestamp > requestInterval >= 0`, so it always moves the start forward (`Observe`, `Call`, `Run`).

## Model

| member | source | states |
|---|---|---|
| TimeUnits.ToMillis | src/main/java/CrptApi.java:36 | One unit in milliseconds equals its length in nanoseconds divided by 10^6, truncated. It is zero exactly for the two sub-millisecond units. |
| FixedWindow.Inc32 | src/main/java/CrptApi.java:84 | `requestCount++` on an `int`: one more below the top of the range, and always congruent to x + 1 modulo 2^32. |
| FixedWindow.Observe | src/main/java/CrptApi.java:65-69 | Reading the clock moves the window start forward exactly when strictly more than `requestInterval` ms have elapsed. An elapsed time equal to the interval does not reset. A reset empties the count and starts the window at `now`; otherwise nothing changes. |
| FixedWindow.Wait | src/main/java/CrptApi.java:72-79 | The polling loop ends freed only below the limit. It ends interrupted only at an `Interrupt` sleep. It never moves the window start backwards. |
| FixedWindow.Call | src/main/java/CrptApi.java:62-88 | One call never moves `lastRequestTimestamp` backwards, whatever the clock readings. |
| FixedWindow.Run | src/main/java/CrptApi.java:62-88 | Calls serialised by the lock: only the last call of a run can still be blocked, and the window start never decreases across the run. |
| FixedWindow.WaitFreedAtReset | src/main/java/CrptApi.java:72-79 | A wait that frees capacity ends at a reading that expired the window, with the count at 0 and the window starting at that reading. Every earlier sleep was uninterrupted and saw an unexpired window. |
| FixedWindow.WaitFreedAtFirstExpiry | src/main/java/CrptApi.java:72-79 | Conversely, the first expiring reading reached without interruption frees capacity, after exactly that many sleeps. |
| FixedWindow.WaitHeldWithoutReset | src/main/java/CrptApi.java:72-82 | A wait that is interrupted or still blocked leaves the window state untouched, and every sleep it performed saw an unexpired window. |
| FixedWindow.CallWithoutWaiting | src/main/java/CrptApi.java:65-84 | With room in the quota after the reset test, the call counts exactly one request. `lastRequestTimestamp` changes only if a reset fired. |
| FixedWindow.CallGrantedWithinLimit | src/main/java/CrptApi.java:70-84 | A call that returns without interruption leaves `requestCount <= requestLimit`. The count is at least 1 when it started non-negative. |
| FixedWindow.CallAfterWaiting | src/main/java/CrptApi.java:70-84 | A call that had to wait and was not interrupted leaves `requestCount == 1`. `lastRequestTimestamp` is then the first supplied clock reading that expired the window: every earlier sleep was uninterrupted and saw an unexpired window. |
| FixedWindow.CallInterruptedOverrun | src/main/java/CrptApi.java:70-84 | An interrupted call increments a count that is already at or above the limit, and leaves the window start where the reset test put it. |
| FixedWindow.InterruptExceedsLimit | src/main/java/CrptApi.java:70-84 | In every full, unexpired window, an interrupted sleep yields a granted call whose count exceeds the limit, unless the count wraps at the top of `int`. |
| FixedWindow.CallAfterExpiry | src/main/java/CrptApi.java:65-84 | A call that finds the window expired is admitted at once into a fresh window: count 1, starting at `now`. |
| FixedWindow.CallKeepsQuota | src/main/java/CrptApi.java:62-88 | Every call that is not interrupted keeps `0 <= requestCount <= requestLimit`. |
| FixedWindow.CallInSameWindow | src/main/java/CrptApi.java:65-84 | A call that leaves the window start unchanged did one of three things: it counted one request below the limit; it is blocked with the state unchanged; or it was interrupted on a full window and counted one request on top of it. |
| FixedWindow.RunWithinOneWindow | src/main/java/CrptApi.java:62-88 | Within one window and without interruptions, the count grows by exactly the number of granted calls, so at most `requestLimit` minus the starting count are granted. |
| FixedWindow.RunOverrunWithinOneWindow | src/main/java/CrptApi.java:62-88 | Within one window, interrupted calls included, every returning call counts exactly one request: the count grows by the number of grants plus the number of interrupted calls. The uninterrupted grants fit in the room left below the limit, so the count ends at most `requestLimit` plus the number of interrupted calls. |
| FixedWindow.RunKeepsQuota | src/main/java/CrptApi.java:62-88 | Over any run of uninterrupted calls across any number of windows, `0 <= requestCount <= requestLimit` holds at the end. |
| FixedWindow.RunAdmitsUpToQuota | src/main/java/CrptApi.java:62-88 | As many in-window calls as the quota has room for are all granted without waiting, and each is counted exactly once. |
| FixedWindow.BoundaryBurst | src/main/java/CrptApi.java:66 | The fixed window lets 2 × `requestLimit` calls through within one millisecond. One full quota arrives when exactly one interval has elapsed, which does not reset. A second full quota arrives one millisecond later. |
| Api.CrptApi.constructor | src/main/java/CrptApi.java:34-38 | On a positive limit, the limit is stored unchanged, the interval is `toMillis(1)` of the unit, the count is 0 and the window starts at the construction-time clock reading. |
| Api.CrptApi.Create | src/main/java/CrptApi.java:28-39 | Construction fails with an argument error ("requestLimit must be positive") exactly when `requestLimit <= 0`. Otherwise it yields a fresh client initialised as above. |
| Api.CrptApi.UpdateRequestCount | src/main/java/CrptApi.java:62-88 | The in-place update of `requestCount` and `lastRequestTimestamp` equals `Call` on the old state. A granted call leaves the count within the limit, and the window start never decreases. `requestLimit` and `requestInterval` are `const` and cannot change. |

## Left out

- `createDocument` (the HTTP POST and connection release), `preparePayload` and `ConverterJson` (Jackson serialisation and Base64): I/O and foreign libraries whose behaviour cannot be stated here.
- The `Document`, `Product` and `Body` classes: data shapes without behaviour.
- `ReentrantLock`: modelled as the atomicity of one whole call, which is exact because the lock is held across the sleep. Thread scheduling and fairness are not modelled.
- `System.currentTimeMillis` and `Thread.sleep(100)`: replaced by the supplied readings. The model does not check that readings are 100 ms apart or non-decreasing; no property needs it.
- `Thread.currentThread().interrupt()`: restoring the interrupt flag is not modelled beyond the `GrantedDespiteInterrupt` outcome. A later sleep by the same thread would be interrupted at once, which a caller expresses by supplying `Interrupt`.
- Liveness of the polling loop: whether a reset ever comes depends on the wall clock. `Wait` instead reports `Exhausted` when the supplied readings end.
- Java `long` overflow in `currentTime - lastRequestTimestamp`: not modelled, since real clock readings are far from the `long` range.
- Java `int` range of `requestLimit`: modelled as the `Int32` type of the argument. The `int` wrap-around of `requestCount` is modelled.
- RunOverrunWithinOneWindow: assumes the run is short enough that the count cannot reach the top of `int` (starting count plus number of calls at most 2^31 - 1). Past that point `Inc32` wraps the count to a negative value, which `InterruptExceedsLimit` already exhibits for a single call.
