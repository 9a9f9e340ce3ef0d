# mini-task-loop in Dafny

A model of `TaskLoop`, the polling scheduler of mini-task-loop, with proofs
about how it behaves.

A loop holds a registry of named tasks. Each task has:

- an anchor: its period in milliseconds;
- a counter: the running time accumulated since the task was added or its
  counter was last reset;
- a paused flag.

Every tick of the loop's timer (`_loopFrame`) works through the tasks in
insertion order. It adds the polling interval to the counter of each running
task. When a counter reaches its anchor, the tick resets it to 0 and queues
the task's callback with `process.nextTick`.

Most public operations take a task name or the wildcard `'*'`, which means
every task; `addTask` throws for `'*'`:

- add, remove, pause and resume a task;
- report a task's status;
- fire a task once on demand.

`runTaskLoop` and `stopTaskLoop` start and stop the loop and take no name.

## Files

- `wrappers.dfy`, module `Wrappers`: `Option` and `Result`.
- `tasks.dfy`, module `Tasks`:
  - the task record and the registry;
  - `Map.get`, `Map.set` and `Map.delete` over the registry, and what each preserves.
- `taskloop.dfy`, module `TaskLoop`: every method of the class, plus the tick.
- `properties.dfy`, module `TaskLoopProperties`: properties that relate
  several calls or several ticks:
  - periodicity;
  - paused tasks stand still;
  - pausing is idempotent;
  - add and remove are round trips;
  - the two forms of `statusTask` agree.

## How the model represents the program

- **Registry.** JavaScript's `Map` iterates in insertion order, and that order
  can be seen: it orders the dispatches of a tick and the entries of a status
  report. So the registry is a sequence of tasks whose names are pairwise
  distinct (`Valid`).
  - `Map.set` on an existing name replaces that entry where it stands.
  - `Map.set` on a new name appends.
  - `Map.delete` keeps the order of the remaining tasks.
- **Names.** A name is `Star` (the wildcard) or `Key(k)`. The type of `k` is a
  type parameter.
- **Dispatch.** `process.nextTick(callback, name)` is represented by the task's
  name, appended to the `dispatched` sequence of an `Effect`. The callback only
  runs after the current operation returns, so it cannot interfere with the
  operation that queued it. That is why the operations can be pure functions,
  provided every callback is a function (see "## Left out").
- **Timer.** The `setInterval` timer is represented by the `running` flag of
  `Loop`. One firing of the timer is `LoopFrame` applied to the registry and the
  loop's polling interval. `Ticks` and `DispatchedAt` describe a run of `n`
  successive firings.
- **Return values.** Every mutating method returns `this` for chaining, so each
  function returns the new registry or loop instead.

## Model

| member | source | states |
|---|---|---|
| TaskLoop.NewLoop | module.js:9-14 | a new loop is stopped and has no tasks; its polling interval is the argument, which defaults to 100 |
| TaskLoop.RunTaskLoop | module.js:35-40 | starting the loop sets it running and leaves the tasks alone; a given interval replaces the polling interval and an absent one keeps it |
| TaskLoop.StopTaskLoop | module.js:46-56 | stopping always leaves the loop not running with the same interval; with `remove_all_tasks` the registry becomes empty and no name is found any more; without it the registry is unchanged |
| TaskLoop.AddTask | module.js:65-82 | fails exactly for the wildcard name; otherwise the name then finds a fresh task (given anchor, counter 0, given paused flag) and every other name finds what it found before; names stay in place when the name was present and it is appended otherwise; uniqueness of names is kept |
| TaskLoop.RemoveTask | module.js:88-97 | every selected name is then absent; every unselected name finds what it found before; the wildcard empties the registry; the remaining names keep their order; removing an absent name changes nothing; uniqueness is kept |
| TaskLoop.SetPausedSpec | module.js:104-151 | the shared update behind pause and resume keeps the names and their order; it changes no unselected task and relabels every selected task that is present; uniqueness is kept |
| TaskLoop.PauseTask | module.js:104-124 | names and order unchanged; unselected tasks unchanged; every selected present task becomes paused with the same anchor, and its counter becomes 0 with `reset_counter` or is kept otherwise; absent names change nothing |
| TaskLoop.ResumeTask | module.js:131-151 | the same as pausing, except that every selected present task becomes not paused |
| TaskLoop.StatusTask | module.js:159-193 | the wildcard returns one snapshot per task, in registry order, with name, anchor, counter and paused flag copied; a single name returns `undefined` exactly when it is absent and otherwise the snapshot of its task; a single name never returns the array form |
| TaskLoop.ExecuteOnce | module.js:201-225 | names and order unchanged; unselected tasks unchanged; selected tasks keep their paused flag and anchor; a selected task's counter becomes 0 exactly when it fires and `reset_counter` is set; dispatches follow registry order; in a valid registry each name is dispatched exactly once if it is selected, present and not skipped (paused with `skip_paused`), and never otherwise |
| TaskLoop.ExecuteOneSpec | module.js:203-213 | the single-name branch touches and dispatches only the named task, and dispatches it exactly when it is present and not skipped |
| TaskLoop.ExecuteAll | module.js:214-223 | the wildcard branch keeps every position; it fires every task that is not skipped (counter zeroed with `reset_counter`, otherwise kept) and leaves skipped tasks as they were |
| TaskLoop.ExecuteAllOrder | module.js:216-222 | the wildcard branch dispatches in registry order |
| TaskLoop.ExecuteAllCount | module.js:216-222 | in a valid registry the wildcard branch dispatches each fired name exactly once and nothing else |
| TaskLoop.LoopFrameTasks | module.js:16-29 | a tick leaves paused tasks untouched; it adds the interval to every running task's counter, or resets that counter to 0 when it reaches the anchor; names, anchors and flags never change; afterwards every running task with a positive anchor has a counter below its anchor |
| TaskLoop.LoopFrameOrder | module.js:18-28 | a tick dispatches in registry order |
| TaskLoop.LoopFrameCount | module.js:20-27 | in a valid registry a tick dispatches a name exactly once when its task is due (running, and counter plus interval reaches the anchor) and never otherwise |
| Tasks.LookupKeys | module.js:108 | `Map.get` finds a task exactly for the registered names, and the task found carries the name it was looked up by |
| Tasks.PutLookup | module.js:78 | after `Map.set` the task's name finds the new task and every other name finds what it found before |
| Tasks.PutKeys | module.js:78 | `Map.set` keeps the names in place when the name was present, and appends it otherwise |
| Tasks.PutValid | module.js:78 | `Map.set` keeps names unique |
| Tasks.DeleteLookup | module.js:92 | after `Map.delete` the name is absent and every other name finds what it found before |
| Tasks.DeleteKeys | module.js:92 | `Map.delete` keeps the remaining names in order, and changes nothing when the name is absent |
| Tasks.DeleteValid | module.js:92 | `Map.delete` keeps names unique, and shrinks the registry by one exactly when the name was present |
| TaskLoopProperties.TicksKeys | module.js:16-29 | any number of ticks keeps the names, their order and their uniqueness |
| TaskLoopProperties.TicksLookup | module.js:16-29 | across ticks each task evolves independently of the others, by repeated one-task advances; absent names stay absent |
| TaskLoopProperties.NextTickCount | module.js:22-27 | after `n` ticks, the next tick dispatches a task once if its advanced state is due and not at all otherwise |
| TaskLoopProperties.Periodicity | module.js:22-27 | a running task that starts at counter 0 with anchor `m * interval` is dispatched exactly once on ticks `m, 2m, 3m, ...` and on no other tick |
| TaskLoopProperties.PausedTaskFrozen | module.js:20 | however many ticks pass, a paused task keeps its exact state |
| TaskLoopProperties.PausedNeverDispatched | module.js:20 | no tick ever dispatches a paused task |
| TaskLoopProperties.PauseThenResumeContinues | module.js:104-124 | pausing a task, letting any number of ticks pass and resuming it (both without reset) gives back the task exactly as it was before the pause, running |
| TaskLoopProperties.RemovedNeverDispatched | module.js:88-97 | after a task is removed, no later tick dispatches its name |
| TaskLoopProperties.PauseTwice | module.js:104-124 | pausing twice equals pausing once, resetting the counter if either call asked to; so, with `b == a`, pausing is idempotent |
| TaskLoopProperties.ResumeTwice | module.js:131-151 | resuming twice equals resuming once, resetting the counter if either call asked to; so, with `b == a`, resuming is idempotent |
| TaskLoopProperties.AddThenRemove | module.js:65-97 | adding a new name and then removing it gives back the original registry |
| TaskLoopProperties.AddReplacesInPlace | module.js:78 | adding a name already present overwrites its task at the same position with a fresh one, and changes nothing else |
| TaskLoopProperties.StatusAllAgreesWithSingle | module.js:159-193 | in a valid registry, position `i` of the wildcard report is exactly what the single-name report gives for the task at `i` |

The functions that compute these operations (`Tasks.Lookup`, `Tasks.Put`,
`Tasks.Delete`, `TaskLoop.SetPaused`, `TaskLoop.ExecuteOne` and
`TaskLoop.LoopFrame`) carry no rows of their own: the lemmas `LookupKeys`,
`PutLookup`/`PutKeys`/`PutValid`, `DeleteLookup`/`DeleteKeys`/`DeleteValid`,
`SetPausedSpec`, `ExecuteOneSpec` and `LoopFrameTasks`/`LoopFrameOrder`/`LoopFrameCount`
state what they compute.

## Left out

- Timers: `setInterval` and `clearInterval` are reduced to the `running` flag.
  - The wall-clock timing of ticks is not modelled.
  - Calling `runTaskLoop` twice overwrites `this.timer` and leaks the first timer. The model records only that the loop is running.
- Callbacks: their bodies, and the deferral by `process.nextTick`, are not
  modelled. A dispatch is the task's name, which is also the argument the
  callback receives.
  - A callback that calls back into the loop runs after the operation that queued it has returned. The model does not follow it further.
- Callbacks that are not functions: the model assumes every stored callback is
  a function. `addTask` stores whatever it is given, including `undefined`.
  With any other value, `process.nextTick` throws at module.js:26, 210 and 220.
  - A tick then stops part-way: the task being fired has already had its counter reset (module.js:25), and the tasks after it are not advanced.
  - `executeOnce` throws before resetting that task's counter (module.js:211 and 221). For `'*'`, the tasks before it have already fired.
  - In the model, `LoopFrame` and `ExecuteOnce` never fail and never stop part-way.
- The `loop` parameter of `_loopFrame` (module.js:16), which `setInterval`
  passes as its third argument (module.js:38): the tick is given the loop's
  registry and polling interval explicitly.
- The `callback` argument of `addTask` is not stored.
- JavaScript numbers: intervals, anchors and counters are unbounded natural
  numbers.
  - Negative, fractional or non-numeric intervals are not modelled.
  - Floating-point rounding is not modelled.
- Loose comparison: the source compares names with `!=`, so `'*'` matches any
  value that loosely equals `'*'`. Names here are either the wildcard or an
  ordinary key, and the key type `K` stands for the names other than `'*'`:
  instantiating `K` with strings that include `"*"` would let `Key("*")`
  through, where module.js:67 and 81 throw. Likewise `runTaskLoop` treats `null` like `undefined`, and the
  model represents both as `None`.
- Strict mode and `queryTask`: `module.js` has neither, although `test.js:5`
  and `test.js:60` refer to both. The model follows `module.js`:
  - a name that is not registered is a silent no-op for remove, pause, resume and execute-once;
  - `statusTask` reports such a name as `undefined`.
- TaskLoop.LoopFrameTasks: "no running task has reached its anchor after a tick" is
  stated only for a positive anchor. A task with anchor 0 fires on every tick
  and keeps counter 0, which equals its anchor.
- The test file `test.js` is not part of this model.
