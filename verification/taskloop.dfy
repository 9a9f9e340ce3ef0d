/**
  The `TaskLoop` class: a polling scheduler over a registry of named tasks.

  Every operation is a pure function. The operations that only touch the
  registry (`addTask`, `removeTask`, `pauseTask`, `resumeTask`, `statusTask`,
  `executeOnce` and the tick `_loopFrame`) take and return the registry; the
  constructor, `runTaskLoop` and `stopTaskLoop` work on the whole `Loop`.
  A callback dispatch (`process.nextTick(callback, name)`) is represented by
  appending the task's name to the `dispatched` sequence of an `Effect`; since
  dispatch is deferred, no callback runs while an operation is in progress.
*/
module TaskLoop {
  import opened Wrappers
  import opened Tasks

  /** The error `addTask` throws when asked to register the wildcard name. */
  datatype AddError = WildcardName

  /**
    The loop object: the polling interval every tick adds to the counters, the
    registry, and whether the periodic timer is set (`timer != null`).
  */
  datatype Loop<K> = Loop(interval: nat, tasks: Registry<K>, running: bool)

  /** A snapshot of one task as `statusTask` reports it. */
  datatype Status<K> = Status(name: K, anchor: nat, counter: nat, isPaused: bool)

  /** What `statusTask` returns: `undefined`, one snapshot, or the array of all snapshots. */
  datatype Report<K> = Undefined | Single(status: Status<K>) | All(statuses: seq<Status<K>>)

  // ---------------------------------------------------------------------------
  // Constructor, runTaskLoop, stopTaskLoop

  /** `new TaskLoop(loop_polling_interval = 100)`: a stopped loop with no tasks, polling every 100 ms by default. */
  function NewLoop<K>(pollingInterval: nat := 100): (l: Loop<K>)
    ensures l.tasks == [] && !l.running
    ensures l.interval == pollingInterval
  {
    Loop(pollingInterval, [], false)
  }

  /**
    `runTaskLoop(interval)`: sets the timer; a given interval replaces the
    polling interval, an absent one keeps it. The registry is untouched.
  */
  function RunTaskLoop<K>(l: Loop<K>, interval: Option<nat> := None): (r: Loop<K>)
    ensures r.running && r.tasks == l.tasks
    ensures interval.None? ==> r.interval == l.interval
    ensures interval.Some? ==> r.interval == interval.value
  {
    l.(running := true, interval := if interval.Some? then interval.value else l.interval)
  }

  /**
    `stopTaskLoop(remove_all_tasks = false)`: clears the timer and, when asked,
    empties the registry exactly as `removeTask('*')` does.
  */
  function StopTaskLoop<K(==,!new)>(l: Loop<K>, removeAllTasks: bool := false): (r: Loop<K>)
    ensures !r.running && r.interval == l.interval
    ensures removeAllTasks ==> r.tasks == [] && forall k :: Lookup(r.tasks, k) == None
    ensures !removeAllTasks ==> r.tasks == l.tasks
  {
    l.(running := false, tasks := if removeAllTasks then RemoveTask(l.tasks) else l.tasks)
  }

  // ---------------------------------------------------------------------------
  // addTask, removeTask

  /**
    `addTask(name, interval, callback, init_paused = false)`: stores a fresh
    task under `name` (counter 0), silently replacing a task of that name in
    place; throws for the wildcard name.
  */
  function AddTask<K(==,!new)>(reg: Registry<K>, name: Name<K>, interval: nat, initPaused: bool := false)
    : (r: Result<Registry<K>, AddError>)
    ensures r.Failure? <==> name.Star?
    ensures r.Success? ==> Lookup(r.value, name.key) == Some(Task(name.key, interval, 0, initPaused))
    ensures r.Success? ==> forall k :: k != name.key ==> Lookup(r.value, k) == Lookup(reg, k)
    ensures r.Success? ==> Keys(r.value) == if name.key in Keys(reg) then Keys(reg) else Keys(reg) + [name.key]
    ensures r.Success? && Valid(reg) ==> Valid(r.value)
  {
    match name
    case Star => Failure(WildcardName)
    case Key(k) =>
      var t := Task(k, interval, 0, initPaused);
      PutLookup(reg, t);
      PutKeys(reg, t);
      PutValid(reg, t);
      Success(Put(reg, t))
  }

  /**
    `removeTask(task_name = '*')`: deletes the named task (nothing happens when
    it is absent), or every task for the wildcard.
  */
  function RemoveTask<K(==,!new)>(reg: Registry<K>, name: Name<K> := Star): (r: Registry<K>)
    ensures forall k :: Selects(name, k) ==> Lookup(r, k) == None
    ensures forall k :: !Selects(name, k) ==> Lookup(r, k) == Lookup(reg, k)
    ensures name.Star? ==> r == []
    ensures IsSubsequence(Keys(r), Keys(reg))
    ensures name.Key? && name.key !in Keys(reg) ==> r == reg
    ensures Valid(reg) ==> Valid(r)
  {
    match name
    case Star => []
    case Key(k) =>
      DeleteLookup(reg, k);
      DeleteKeys(reg, k);
      DeleteValid(reg, k);
      Delete(reg, k)
  }

  // ---------------------------------------------------------------------------
  // pauseTask, resumeTask

  /** The update `pauseTask` and `resumeTask` apply to one task. */
  function Relabel<K>(t: Task<K>, paused: bool, resetCounter: bool): Task<K>
  {
    t.(paused := paused, counter := if resetCounter then 0 else t.counter)
  }

  /** The wildcard loop of `pauseTask` / `resumeTask`: updates every task where it stands. */
  function RelabelAll<K>(reg: Registry<K>, paused: bool, resetCounter: bool): (r: Registry<K>)
    ensures |r| == |reg|
    ensures forall i :: 0 <= i < |reg| ==> r[i] == Relabel(reg[i], paused, resetCounter)
  {
    if reg == [] then [] else [Relabel(reg[0], paused, resetCounter)] + RelabelAll(reg[1..], paused, resetCounter)
  }

  /** The shared body of `pauseTask` and `resumeTask`, which differ only in the flag they set. */
  function SetPaused<K(==)>(reg: Registry<K>, name: Name<K>, paused: bool, resetCounter: bool): Registry<K>
  {
    match name
    case Star => RelabelAll(reg, paused, resetCounter)
    case Key(k) =>
      match Lookup(reg, k)
      case None => reg
      case Some(t) => Put(reg, Relabel(t, paused, resetCounter))
  }

  /** What `SetPaused` does to each name: selected tasks are relabelled, all else is untouched. */
  lemma SetPausedSpec<K(!new)>(reg: Registry<K>, name: Name<K>, paused: bool, resetCounter: bool)
    ensures Keys(SetPaused(reg, name, paused, resetCounter)) == Keys(reg)
    ensures forall k :: !Selects(name, k) ==> Lookup(SetPaused(reg, name, paused, resetCounter), k) == Lookup(reg, k)
    ensures forall k :: Selects(name, k) && Lookup(reg, k).Some? ==>
      Lookup(SetPaused(reg, name, paused, resetCounter), k) == Some(Relabel(Lookup(reg, k).value, paused, resetCounter))
    ensures Valid(reg) ==> Valid(SetPaused(reg, name, paused, resetCounter))
  {
    var r := SetPaused(reg, name, paused, resetCounter);
    match name
    case Star =>
      assert Keys(r) == Keys(reg);
      forall k | Lookup(reg, k).Some?
        ensures Lookup(r, k) == Some(Relabel(Lookup(reg, k).value, paused, resetCounter))
      {
        LookupKeys(reg, k);
        var i := LookupPosition(reg, r, k);
      }
      if Valid(reg) {
        SameKeysValid(reg, r);
      }
    case Key(k) =>
      match Lookup(reg, k)
      case None =>
      case Some(t) =>
        LookupKeys(reg, k);
        PutLookup(reg, Relabel(t, paused, resetCounter));
        PutKeys(reg, Relabel(t, paused, resetCounter));
        PutValid(reg, Relabel(t, paused, resetCounter));
  }

  /**
    `pauseTask(task_name = '*', reset_counter = false)`: marks the named task,
    or every task, paused; zeroes its counter when asked and keeps it
    otherwise. An absent name changes nothing.
  */
  function PauseTask<K(==,!new)>(reg: Registry<K>, name: Name<K> := Star, resetCounter: bool := false): (r: Registry<K>)
    ensures Keys(r) == Keys(reg)
    ensures forall k :: !Selects(name, k) ==> Lookup(r, k) == Lookup(reg, k)
    ensures forall k :: Selects(name, k) && Lookup(reg, k).Some? ==>
      && Lookup(r, k).Some?
      && Lookup(r, k).value.paused
      && Lookup(r, k).value.anchor == Lookup(reg, k).value.anchor
      && Lookup(r, k).value.counter == (if resetCounter then 0 else Lookup(reg, k).value.counter)
    ensures Valid(reg) ==> Valid(r)
  {
    SetPausedSpec(reg, name, true, resetCounter);
    SetPaused(reg, name, true, resetCounter)
  }

  /**
    `resumeTask(task_name = '*', reset_counter = false)`: marks the named task,
    or every task, not paused; zeroes its counter when asked and keeps it
    otherwise. An absent name changes nothing.
  */
  function ResumeTask<K(==,!new)>(reg: Registry<K>, name: Name<K> := Star, resetCounter: bool := false): (r: Registry<K>)
    ensures Keys(r) == Keys(reg)
    ensures forall k :: !Selects(name, k) ==> Lookup(r, k) == Lookup(reg, k)
    ensures forall k :: Selects(name, k) && Lookup(reg, k).Some? ==>
      && Lookup(r, k).Some?
      && !Lookup(r, k).value.paused
      && Lookup(r, k).value.anchor == Lookup(reg, k).value.anchor
      && Lookup(r, k).value.counter == (if resetCounter then 0 else Lookup(reg, k).value.counter)
    ensures Valid(reg) ==> Valid(r)
  {
    SetPausedSpec(reg, name, false, resetCounter);
    SetPaused(reg, name, false, resetCounter)
  }

  // ---------------------------------------------------------------------------
  // statusTask

  /** The snapshot `statusTask` builds from a task record. */
  function StatusOf<K>(t: Task<K>): Status<K>
  {
    Status(t.name, t.anchor, t.counter, t.paused)
  }

  /** The wildcard loop of `statusTask`: one snapshot per task, in registry order. */
  function StatusAll<K>(reg: Registry<K>): (ss: seq<Status<K>>)
    ensures |ss| == |reg|
    ensures forall i :: 0 <= i < |reg| ==> ss[i] == StatusOf(reg[i])
  {
    if reg == [] then [] else [StatusOf(reg[0])] + StatusAll(reg[1..])
  }

  /**
    `statusTask(task_name = '*')`: the snapshot of the named task, `undefined`
    when it is absent, or the array of all snapshots for the wildcard. It reads
    the registry and returns no new one.
  */
  function StatusTask<K(==,!new)>(reg: Registry<K>, name: Name<K> := Star): (r: Report<K>)
    ensures name.Star? ==> r.All? && |r.statuses| == |reg|
    ensures name.Star? ==> forall i :: 0 <= i < |reg| ==>
      && r.statuses[i].name == reg[i].name
      && r.statuses[i].anchor == reg[i].anchor
      && r.statuses[i].counter == reg[i].counter
      && r.statuses[i].isPaused == reg[i].paused
    ensures name.Key? ==> (r.Undefined? <==> name.key !in Keys(reg))
    ensures name.Key? && r.Single? ==> Lookup(reg, name.key).Some? && r.status == StatusOf(Lookup(reg, name.key).value)
    ensures name.Key? ==> !r.All?
  {
    match name
    case Star => All(StatusAll(reg))
    case Key(k) =>
      LookupKeys(reg, k);
      match Lookup(reg, k)
      case None => Undefined
      case Some(t) => Single(StatusOf(t))
  }

  // ---------------------------------------------------------------------------
  // executeOnce

  /** Whether `executeOnce` fires a task: a paused task is skipped only when `skip_paused` is set. */
  predicate Fires<K>(t: Task<K>, skipPaused: bool)
  {
    !(skipPaused && t.paused)
  }

  /** The update `executeOnce` applies to a task it fires. */
  function Fired<K>(t: Task<K>, resetCounter: bool): Task<K>
  {
    t.(counter := if resetCounter then 0 else t.counter)
  }

  /** The wildcard loop of `executeOnce`: fires every task that is not skipped, in registry order. */
  function ExecuteAll<K>(reg: Registry<K>, resetCounter: bool, skipPaused: bool): (r: Effect<K>)
    ensures |r.tasks| == |reg|
    ensures forall i :: 0 <= i < |reg| && Fires(reg[i], skipPaused) ==> r.tasks[i] == Fired(reg[i], resetCounter)
    ensures forall i :: 0 <= i < |reg| && !Fires(reg[i], skipPaused) ==> r.tasks[i] == reg[i]
  {
    if reg == [] then Effect([], [])
    else
      var rest := ExecuteAll(reg[1..], resetCounter, skipPaused);
      var t := reg[0];
      if Fires(t, skipPaused) then Effect([Fired(t, resetCounter)] + rest.tasks, [t.name] + rest.dispatched)
      else Effect([t] + rest.tasks, rest.dispatched)
  }

  /** The dispatches of the wildcard `executeOnce` follow registry order. */
  lemma {:induction false} ExecuteAllOrder<K(!new)>(reg: Registry<K>, resetCounter: bool, skipPaused: bool)
    ensures IsSubsequence(ExecuteAll(reg, resetCounter, skipPaused).dispatched, Keys(reg))
  {
    if reg != [] {
      var t := reg[0];
      var rest := ExecuteAll(reg[1..], resetCounter, skipPaused);
      var d := ExecuteAll(reg, resetCounter, skipPaused).dispatched;
      ExecuteAllOrder(reg[1..], resetCounter, skipPaused);
      assert reg == [t] + reg[1..];
      KeysCons(t, reg[1..]);
      if Fires(t, skipPaused) {
        assert d[1..] == rest.dispatched;
      } else {
        SubsequenceSkip(d, Keys(reg));
      }
    }
  }

  /** In a valid registry the wildcard `executeOnce` dispatches each fired name exactly once, and nothing else. */
  lemma {:induction false} ExecuteAllCount<K(!new)>(reg: Registry<K>, resetCounter: bool, skipPaused: bool, k: K)
    requires Valid(reg)
    ensures multiset(ExecuteAll(reg, resetCounter, skipPaused).dispatched)[k] ==
            (if Lookup(reg, k).Some? && Fires(Lookup(reg, k).value, skipPaused) then 1 else 0)
  {
    if reg != [] {
      var t := reg[0];
      var rest := ExecuteAll(reg[1..], resetCounter, skipPaused);
      assert reg == [t] + reg[1..];
      ValidCons(t, reg[1..]);
      LookupCons(t, reg[1..], k);
      ExecuteAllCount(reg[1..], resetCounter, skipPaused, k);
      if t.name == k {
        LookupKeys(reg[1..], k);
        assert Lookup(reg[1..], k).None?;
      }
    }
  }

  /**
    `executeOnce(task_name = '*', reset_counter = true, skip_paused = true)`:
    queues the callback of the named task, or of every task, regardless of its
    counter. A paused task is skipped entirely when `skip_paused` is set. A
    fired task's counter is zeroed when `reset_counter` is set; the paused flag
    is never changed; an absent name changes nothing and dispatches nothing.
  */
  function ExecuteOnce<K(==,!new)>(reg: Registry<K>, name: Name<K> := Star, resetCounter: bool := true, skipPaused: bool := true)
    : (r: Effect<K>)
    ensures Keys(r.tasks) == Keys(reg)
    ensures forall k :: !Selects(name, k) ==> Lookup(r.tasks, k) == Lookup(reg, k)
    ensures forall k :: Selects(name, k) && Lookup(reg, k).Some? ==>
      && Lookup(r.tasks, k).Some?
      && Lookup(r.tasks, k).value.paused == Lookup(reg, k).value.paused
      && Lookup(r.tasks, k).value.anchor == Lookup(reg, k).value.anchor
      && Lookup(r.tasks, k).value.counter ==
           (if Fires(Lookup(reg, k).value, skipPaused) && resetCounter then 0 else Lookup(reg, k).value.counter)
    ensures IsSubsequence(r.dispatched, Keys(reg))
    ensures Valid(reg) ==> Valid(r.tasks)
    ensures Valid(reg) ==> forall k :: multiset(r.dispatched)[k] ==
                                       (if Selects(name, k) && Lookup(reg, k).Some? && Fires(Lookup(reg, k).value, skipPaused) then 1 else 0)
  {
    match name
    case Star =>
      ExecuteAllSpec(reg, resetCounter, skipPaused);
      ExecuteAll(reg, resetCounter, skipPaused)
    case Key(k) =>
      ExecuteOneSpec(reg, k, resetCounter, skipPaused);
      ExecuteOne(reg, k, resetCounter, skipPaused)
  }

  /** The single-name branch of `executeOnce`. */
  function ExecuteOne<K(==)>(reg: Registry<K>, k: K, resetCounter: bool, skipPaused: bool): Effect<K>
  {
    match Lookup(reg, k)
    case None => Effect(reg, [])
    case Some(t) =>
      if Fires(t, skipPaused) then Effect(Put(reg, Fired(t, resetCounter)), [t.name])
      else Effect(reg, [])
  }

  /** The single-name `executeOnce` touches and dispatches at most the named task. */
  lemma ExecuteOneSpec<K(!new)>(reg: Registry<K>, k: K, resetCounter: bool, skipPaused: bool)
    ensures Keys(ExecuteOne(reg, k, resetCounter, skipPaused).tasks) == Keys(reg)
    ensures forall k' :: k' != k ==> Lookup(ExecuteOne(reg, k, resetCounter, skipPaused).tasks, k') == Lookup(reg, k')
    ensures Lookup(reg, k).Some? ==>
      Lookup(ExecuteOne(reg, k, resetCounter, skipPaused).tasks, k) ==
        Some(if Fires(Lookup(reg, k).value, skipPaused) then Fired(Lookup(reg, k).value, resetCounter) else Lookup(reg, k).value)
    ensures IsSubsequence(ExecuteOne(reg, k, resetCounter, skipPaused).dispatched, Keys(reg))
    ensures Valid(reg) ==> Valid(ExecuteOne(reg, k, resetCounter, skipPaused).tasks)
    ensures ExecuteOne(reg, k, resetCounter, skipPaused).dispatched ==
            (if Lookup(reg, k).Some? && Fires(Lookup(reg, k).value, skipPaused) then [k] else [])
  {
    match Lookup(reg, k)
    case None =>
    case Some(t) =>
      if Fires(t, skipPaused) {
        LookupKeys(reg, k);
        PutLookup(reg, Fired(t, resetCounter));
        PutKeys(reg, Fired(t, resetCounter));
        PutValid(reg, Fired(t, resetCounter));
        KeyIsSubsequence(reg, k);
      }
  }

  /** The wildcard `executeOnce` as one contract. */
  lemma ExecuteAllSpec<K(!new)>(reg: Registry<K>, resetCounter: bool, skipPaused: bool)
    ensures Keys(ExecuteAll(reg, resetCounter, skipPaused).tasks) == Keys(reg)
    ensures forall k :: Lookup(reg, k).Some? ==>
      Lookup(ExecuteAll(reg, resetCounter, skipPaused).tasks, k) ==
        Some(if Fires(Lookup(reg, k).value, skipPaused) then Fired(Lookup(reg, k).value, resetCounter) else Lookup(reg, k).value)
    ensures forall k :: Lookup(reg, k).None? ==> Lookup(ExecuteAll(reg, resetCounter, skipPaused).tasks, k).None?
    ensures IsSubsequence(ExecuteAll(reg, resetCounter, skipPaused).dispatched, Keys(reg))
    ensures Valid(reg) ==> Valid(ExecuteAll(reg, resetCounter, skipPaused).tasks)
    ensures Valid(reg) ==> forall k :: multiset(ExecuteAll(reg, resetCounter, skipPaused).dispatched)[k] ==
                                       (if Lookup(reg, k).Some? && Fires(Lookup(reg, k).value, skipPaused) then 1 else 0)
  {
    var r := ExecuteAll(reg, resetCounter, skipPaused).tasks;
    ExecuteAllOrder(reg, resetCounter, skipPaused);
    assert Keys(r) == Keys(reg);
    forall k | Lookup(reg, k).Some?
      ensures Lookup(r, k) == Some(if Fires(Lookup(reg, k).value, skipPaused) then Fired(Lookup(reg, k).value, resetCounter) else Lookup(reg, k).value)
    {
      LookupKeys(reg, k);
      var i := LookupPosition(reg, r, k);
    }
    forall k | Lookup(reg, k).None?
      ensures Lookup(r, k).None?
    {
      LookupKeys(reg, k);
      LookupKeys(r, k);
    }
    if Valid(reg) {
      SameKeysValid(reg, r);
      forall k {
        ExecuteAllCount(reg, resetCounter, skipPaused, k);
      }
    }
  }

  /** A single registered name is a subsequence of the registry's names. */
  lemma {:induction false} KeyIsSubsequence<K(!new)>(reg: Registry<K>, k: K)
    requires k in Keys(reg)
    ensures IsSubsequence([k], Keys(reg))
  {
    var ks := Keys(reg);
    if ks[0] != k {
      assert reg == [reg[0]] + reg[1..];
      KeysCons(reg[0], reg[1..]);
      KeyIsSubsequence(reg[1..], k);
      SubsequenceSkip([k], ks);
    } else {
      assert [k][1..] == [];
    }
  }

  // ---------------------------------------------------------------------------
  // _loopFrame: one tick

  /** Whether a tick fires a task: it is not paused and its counter plus the polling interval reaches its anchor. */
  predicate Due<K>(t: Task<K>, interval: nat)
  {
    !t.paused && t.counter + interval >= t.anchor
  }

  /** What one tick does to one task. */
  function Advance<K>(t: Task<K>, interval: nat): Task<K>
  {
    if t.paused then t
    else if Due(t, interval) then t.(counter := 0)
    else t.(counter := t.counter + interval)
  }

  /**
    `_loopFrame(loop)`, given the loop's registry and polling interval: each
    task in registry order is advanced, and the name of each task found due is
    queued for dispatch.
  */
  function LoopFrame<K>(reg: Registry<K>, interval: nat): (r: Effect<K>)
    ensures |r.tasks| == |reg|
  {
    if reg == [] then Effect([], [])
    else
      var rest := LoopFrame(reg[1..], interval);
      var t := reg[0];
      Effect([Advance(t, interval)] + rest.tasks, if Due(t, interval) then [t.name] + rest.dispatched else rest.dispatched)
  }

  /**
    What a tick does to each task: every task that is not paused gains the
    interval, and one whose counter reaches its anchor is reset to 0 instead.
    Paused tasks are untouched; names, anchors and flags never change; and
    afterwards no running task with a positive anchor has reached it.
  */
  lemma {:induction false} LoopFrameTasks<K>(reg: Registry<K>, interval: nat)
    ensures forall i :: 0 <= i < |reg| ==>
      && LoopFrame(reg, interval).tasks[i].name == reg[i].name
      && LoopFrame(reg, interval).tasks[i].anchor == reg[i].anchor
      && LoopFrame(reg, interval).tasks[i].paused == reg[i].paused
    ensures forall i :: 0 <= i < |reg| ==> LoopFrame(reg, interval).tasks[i] == Advance(reg[i], interval)
    ensures forall i :: 0 <= i < |reg| && reg[i].paused ==> LoopFrame(reg, interval).tasks[i] == reg[i]
    ensures forall i :: 0 <= i < |reg| && !reg[i].paused ==>
      LoopFrame(reg, interval).tasks[i].counter ==
        (if reg[i].counter + interval >= reg[i].anchor then 0 else reg[i].counter + interval)
    ensures forall i :: 0 <= i < |reg| && !reg[i].paused && reg[i].anchor > 0 ==>
      LoopFrame(reg, interval).tasks[i].counter < reg[i].anchor
  {
    if reg != [] {
      LoopFrameTasks(reg[1..], interval);
      var r := LoopFrame(reg, interval).tasks;
      assert r[1..] == LoopFrame(reg[1..], interval).tasks;
      forall i | 1 <= i < |reg| ensures r[i] == LoopFrame(reg[1..], interval).tasks[i - 1] && reg[i] == reg[1..][i - 1] {
      }
    }
  }

  /** A tick keeps the names, their order and their uniqueness. */
  lemma LoopFrameKeys<K(!new)>(reg: Registry<K>, interval: nat)
    ensures Keys(LoopFrame(reg, interval).tasks) == Keys(reg)
    ensures Valid(reg) ==> Valid(LoopFrame(reg, interval).tasks)
  {
    var r := LoopFrame(reg, interval).tasks;
    LoopFrameTasks(reg, interval);
    assert Keys(r) == Keys(reg);
    if Valid(reg) {
      SameKeysValid(reg, r);
    }
  }

  /** Looking a name up after a tick finds its task advanced by one interval; an absent name stays absent. */
  lemma LoopFrameLookup<K(!new)>(reg: Registry<K>, interval: nat, k: K)
    ensures Lookup(LoopFrame(reg, interval).tasks, k) ==
            (if Lookup(reg, k).Some? then Some(Advance(Lookup(reg, k).value, interval)) else None)
  {
  }

  /** A tick dispatches in registry order. */
  lemma {:induction false} LoopFrameOrder<K(!new)>(reg: Registry<K>, interval: nat)
    ensures IsSubsequence(LoopFrame(reg, interval).dispatched, Keys(reg))
  {
    if reg != [] {
      var t := reg[0];
      var rest := LoopFrame(reg[1..], interval);
      var d := LoopFrame(reg, interval).dispatched;
      LoopFrameOrder(reg[1..], interval);
      assert reg == [t] + reg[1..];
      KeysCons(t, reg[1..]);
      if Due(t, interval) {
        assert d[1..] == rest.dispatched;
      } else {
        SubsequenceSkip(d, Keys(reg));
      }
    }
  }

  /** In a valid registry a tick dispatches a name exactly once when its task is due, and never otherwise. */
  lemma {:induction false} LoopFrameCount<K(!new)>(reg: Registry<K>, interval: nat, k: K)
    requires Valid(reg)
    ensures multiset(LoopFrame(reg, interval).dispatched)[k] ==
            (if Lookup(reg, k).Some? && Due(Lookup(reg, k).value, interval) then 1 else 0)
  {
    if reg != [] {
      var t := reg[0];
      assert reg == [t] + reg[1..];
      ValidCons(t, reg[1..]);
      LookupCons(t, reg[1..], k);
      LoopFrameCount(reg[1..], interval, k);
      if t.name == k {
        LookupKeys(reg[1..], k);
        assert Lookup(reg[1..], k).None?;
      }
    }
  }
}
