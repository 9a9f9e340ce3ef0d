/**
  Properties of the task loop that relate several operations or several
  ticks: periodicity, paused tasks standing still, idempotent pausing,
  add/remove round trips and the agreement of the two forms of `statusTask`.
*/
module TaskLoopProperties {
  import opened Wrappers
  import opened Tasks
  import opened TaskLoop

  // ---------------------------------------------------------------------------
  // Successive ticks

  /** The registry after `n` successive ticks at a fixed polling interval. */
  function Ticks<K>(reg: Registry<K>, interval: nat, n: nat): Registry<K>
  {
    if n == 0 then reg else LoopFrame(Ticks(reg, interval, n - 1), interval).tasks
  }

  /** The names the `n`-th tick dispatches, counting ticks from 1. */
  function DispatchedAt<K>(reg: Registry<K>, interval: nat, n: nat): seq<K>
    requires n >= 1
  {
    LoopFrame(Ticks(reg, interval, n - 1), interval).dispatched
  }

  /** One task after `n` ticks. */
  function AdvanceN<K>(t: Task<K>, interval: nat, n: nat): Task<K>
  {
    if n == 0 then t else Advance(AdvanceN(t, interval, n - 1), interval)
  }

  /** Ticks never add, remove or reorder tasks. */
  lemma {:induction false} TicksKeys<K(!new)>(reg: Registry<K>, interval: nat, n: nat)
    ensures Keys(Ticks(reg, interval, n)) == Keys(reg)
    ensures Valid(reg) ==> Valid(Ticks(reg, interval, n))
  {
    TicksSameKeys(reg, interval, n);
    if Valid(reg) {
      SameKeysValid(reg, Ticks(reg, interval, n));
    }
  }

  /** The names after `n` ticks, by induction on `n`. */
  lemma {:induction false} TicksSameKeys<K(!new)>(reg: Registry<K>, interval: nat, n: nat)
    ensures Keys(Ticks(reg, interval, n)) == Keys(reg)
  {
    if n > 0 {
      var prev := Ticks(reg, interval, n - 1);
      calc {
        Keys(Ticks(reg, interval, n));
        Keys(LoopFrame(prev, interval).tasks);
        { LoopFrameKeys(prev, interval); }
        Keys(prev);
        { TicksSameKeys(reg, interval, n - 1); }
        Keys(reg);
      }
    }
  }

  /** Across ticks each task evolves on its own, by repeated `Advance`. */
  lemma {:induction false} TicksLookup<K(!new)>(reg: Registry<K>, interval: nat, n: nat, k: K)
    ensures Lookup(reg, k).Some? ==> Lookup(Ticks(reg, interval, n), k) == Some(AdvanceN(Lookup(reg, k).value, interval, n))
    ensures Lookup(reg, k).None? ==> Lookup(Ticks(reg, interval, n), k).None?
  {
    if n > 0 {
      var prev := Ticks(reg, interval, n - 1);
      TicksLookup(reg, interval, n - 1, k);
      LoopFrameLookup(prev, interval, k);
      assert Ticks(reg, interval, n) == LoopFrame(prev, interval).tasks;
    }
  }

  /** Ticking `a` times and then `b` times is ticking `a + b` times. */
  lemma {:induction false} AdvanceNAdd<K>(t: Task<K>, interval: nat, a: nat, b: nat)
    ensures AdvanceN(t, interval, a + b) == AdvanceN(AdvanceN(t, interval, a), interval, b)
  {
    if b > 0 {
      AdvanceNAdd(t, interval, a, b - 1);
    }
  }

  /** Multiplying by a positive number keeps a strict order. */
  lemma MulLess(a: nat, b: nat, c: nat)
    requires a < b && c > 0
    ensures a * c < b * c
  {
  }

  /** A running task whose counter is `j * interval` (`j < m`) is due at the next tick iff `j == m - 1`. */
  lemma DueAtPhase<K>(t: Task<K>, interval: nat, m: nat, j: nat)
    requires !t.paused && interval > 0 && j < m && t.anchor == m * interval && t.counter == j * interval
    ensures Due(t, interval) <==> j == m - 1
  {
    assert j * interval + interval == (j + 1) * interval;
    if j + 1 < m {
      MulLess(j + 1, m, interval);
    }
  }

  /**
    Within one period: a running task that starts at counter 0 with anchor
    `m * interval` has counter `r * interval` after `r < m` ticks, and is back
    at counter 0 after `m` ticks.
  */
  lemma {:induction false} WithinPeriod<K>(t: Task<K>, interval: nat, m: nat, r: nat)
    requires !t.paused && t.counter == 0 && interval > 0 && m >= 1 && t.anchor == m * interval
    requires r <= m
    ensures r < m ==> AdvanceN(t, interval, r) == t.(counter := r * interval)
    ensures r == m ==> AdvanceN(t, interval, r) == t
  {
    if r > 0 {
      WithinPeriod(t, interval, m, r - 1);
      assert (r - 1) * interval + interval == r * interval;
      if r < m {
        MulLess(r, m, interval);
      }
    }
  }

  /** After `q` whole periods and `r < m` more ticks the task looks as it did after `r` ticks. */
  lemma {:induction false} TaskCycle<K>(t: Task<K>, interval: nat, m: nat, q: nat, r: nat)
    requires !t.paused && t.counter == 0 && interval > 0 && m >= 1 && t.anchor == m * interval
    requires r < m
    ensures AdvanceN(t, interval, q * m + r) == t.(counter := r * interval)
  {
    if q == 0 {
      WithinPeriod(t, interval, m, r);
    } else {
      assert q * m + r == m + ((q - 1) * m + r);
      AdvanceNAdd(t, interval, m, (q - 1) * m + r);
      WithinPeriod(t, interval, m, m);
      TaskCycle(t, interval, m, q - 1, r);
    }
  }

  /**
    Periodicity: a running task with counter 0 and anchor `m * interval`
    (`m >= 1`) is dispatched exactly once on ticks `m, 2m, 3m, ...` and on no
    other tick. Every tick number `n >= 1` is `q * m + r` for exactly one
    `q >= 0` and `1 <= r <= m`, and it dispatches the task iff `r == m`.
  */
  lemma Periodicity<K(!new)>(reg: Registry<K>, interval: nat, k: K, m: nat, q: nat, r: nat)
    requires Valid(reg) && Lookup(reg, k).Some?
    requires !Lookup(reg, k).value.paused && Lookup(reg, k).value.counter == 0
    requires interval > 0 && m >= 1 && Lookup(reg, k).value.anchor == m * interval
    requires 1 <= r <= m
    ensures multiset(DispatchedAt(reg, interval, q * m + r))[k] == if r == m then 1 else 0
  {
    var t := Lookup(reg, k).value;
    var n := q * m + (r - 1);
    NextTickCount(reg, interval, k, n);
    TaskCycle(t, interval, m, q, r - 1);
    DueAtPhase(t.(counter := (r - 1) * interval), interval, m, r - 1);
    assert q * m + r - 1 == n;
  }

  /** The tick after `n` ticks dispatches a task once if it is due by then, and otherwise not at all. */
  lemma NextTickCount<K(!new)>(reg: Registry<K>, interval: nat, k: K, n: nat)
    requires Valid(reg) && Lookup(reg, k).Some?
    ensures multiset(LoopFrame(Ticks(reg, interval, n), interval).dispatched)[k] ==
            (if Due(AdvanceN(Lookup(reg, k).value, interval, n), interval) then 1 else 0)
  {
    TicksLookup(reg, interval, n, k);
    TicksKeys(reg, interval, n);
    LoopFrameCount(Ticks(reg, interval, n), interval, k);
  }

  /** A paused task never moves. */
  lemma {:induction false} AdvanceNPaused<K>(t: Task<K>, interval: nat, n: nat)
    requires t.paused
    ensures AdvanceN(t, interval, n) == t
  {
    if n > 0 {
      AdvanceNPaused(t, interval, n - 1);
    }
  }

  /** However many ticks pass, a paused task keeps its state. */
  lemma PausedTaskFrozen<K(!new)>(reg: Registry<K>, interval: nat, k: K, n: nat)
    requires Lookup(reg, k).Some? && Lookup(reg, k).value.paused
    ensures Lookup(Ticks(reg, interval, n), k) == Lookup(reg, k)
  {
    TicksLookup(reg, interval, n, k);
    AdvanceNPaused(Lookup(reg, k).value, interval, n);
  }

  /** A paused task is never dispatched by a tick, however many ticks have passed. */
  lemma PausedNeverDispatched<K(!new)>(reg: Registry<K>, interval: nat, k: K, n: nat)
    requires Valid(reg) && Lookup(reg, k).Some? && Lookup(reg, k).value.paused
    requires n >= 1
    ensures k !in DispatchedAt(reg, interval, n)
  {
    NextTickCount(reg, interval, k, n - 1);
    AdvanceNPaused(Lookup(reg, k).value, interval, n - 1);
  }

  /**
    Pausing halts a task: after pausing it (keeping its counter), letting any
    number of ticks pass and resuming it (keeping its counter), the task is
    exactly as it was before the pause, but running.
  */
  lemma {:induction false} PauseThenResumeContinues<K(!new)>(reg: Registry<K>, interval: nat, k: K, n: nat, t: Task<K>)
    requires Lookup(reg, k) == Some(t)
    ensures Lookup(ResumeTask(Ticks(PauseTask(reg, Key(k)), interval, n), Key(k)), k) == Some(t.(paused := false))
  {
    var p := PauseTask(reg, Key(k));
    TicksLookup(p, interval, n, k);
    AdvanceNPaused(Lookup(p, k).value, interval, n);
    LookupKeys(reg, k);
    LookupKeys(ResumeTask(Ticks(p, interval, n), Key(k)), k);
  }

  /** A removed task is never dispatched by any later tick. */
  lemma RemovedNeverDispatched<K(!new)>(reg: Registry<K>, interval: nat, k: K, n: nat)
    requires Valid(reg) && n >= 1
    ensures k !in DispatchedAt(RemoveTask(reg, Key(k)), interval, n)
  {
    var r := RemoveTask(reg, Key(k));
    TicksLookup(r, interval, n - 1, k);
    TicksKeys(r, interval, n - 1);
    LoopFrameCount(Ticks(r, interval, n - 1), interval, k);
  }

  // ---------------------------------------------------------------------------
  // Pausing twice

  /** Storing twice under one name keeps only the second task. */
  lemma {:induction false} PutPut<K(!new)>(reg: Registry<K>, a: Task<K>, b: Task<K>)
    requires a.name == b.name
    ensures Put(Put(reg, a), b) == Put(reg, b)
  {
    if reg != [] && reg[0].name != a.name {
      PutPut(reg[1..], a, b);
      assert Put(reg, a)[1..] == Put(reg[1..], a);
    } else if reg != [] {
      assert Put(reg, a)[1..] == reg[1..];
    }
  }

  /** Relabelling every task twice is relabelling once with the second flag and either reset. */
  lemma RelabelAllTwice<K>(reg: Registry<K>, paused: bool, a: bool, b: bool)
    ensures RelabelAll(RelabelAll(reg, paused, a), paused, b) == RelabelAll(reg, paused, a || b)
  {
  }


  /** Setting the same flag twice equals setting it once, resetting the counter if either call did. */
  lemma SetPausedTwice<K(!new)>(reg: Registry<K>, name: Name<K>, paused: bool, a: bool, b: bool)
    ensures SetPaused(SetPaused(reg, name, paused, a), name, paused, b) == SetPaused(reg, name, paused, a || b)
  {
    match name
    case Star =>
      RelabelAllTwice(reg, paused, a, b);
    case Key(k) =>
      match Lookup(reg, k)
      case None =>
      case Some(t) =>
        var t' := Relabel(t, paused, a);
        LookupKeys(reg, k);
        PutLookup(reg, t');
        PutPut(reg, t', Relabel(t', paused, b));
  }

  /** Pausing twice equals pausing once (resetting the counter if either call asked to).
      With `b == a` this is idempotence, since `a || a == a`. */
  lemma {:induction false} PauseTwice<K(!new)>(reg: Registry<K>, name: Name<K>, a: bool, b: bool)
    ensures PauseTask(PauseTask(reg, name, a), name, b) == PauseTask(reg, name, a || b)
  {
    SetPausedTwice(reg, name, true, a, b);
  }

  /** Resuming twice equals resuming once (resetting the counter if either call asked to).
      With `b == a` this is idempotence, since `a || a == a`. */
  lemma {:induction false} ResumeTwice<K(!new)>(reg: Registry<K>, name: Name<K>, a: bool, b: bool)
    ensures ResumeTask(ResumeTask(reg, name, a), name, b) == ResumeTask(reg, name, a || b)
  {
    SetPausedTwice(reg, name, false, a, b);
  }

  // ---------------------------------------------------------------------------
  // Adding and removing

  /** Storing a new name appends it. */
  lemma {:induction false} PutAppends<K(!new)>(reg: Registry<K>, t: Task<K>)
    requires t.name !in Keys(reg)
    ensures Put(reg, t) == reg + [t]
  {
    if reg != [] {
      assert reg == [reg[0]] + reg[1..];
      KeysCons(reg[0], reg[1..]);
      PutAppends(reg[1..], t);
    }
  }

  /** Deleting the last-added name from an appended registry gives the original back. */
  lemma {:induction false} DeleteAppended<K(!new)>(reg: Registry<K>, t: Task<K>)
    requires t.name !in Keys(reg)
    ensures Delete(reg + [t], t.name) == reg
  {
    if reg == [] {
      assert Delete([t], t.name) == Delete([t][1..], t.name);
    } else {
      assert reg == [reg[0]] + reg[1..];
      KeysCons(reg[0], reg[1..]);
      DeleteAppended(reg[1..], t);
      assert (reg + [t])[1..] == reg[1..] + [t];
    }
  }

  /** Adding a task under a new name and removing that name restores the registry exactly. */
  lemma AddThenRemove<K(!new)>(reg: Registry<K>, k: K, interval: nat, initPaused: bool)
    requires k !in Keys(reg)
    ensures AddTask(reg, Key(k), interval, initPaused).Success?
    ensures RemoveTask(AddTask(reg, Key(k), interval, initPaused).value, Key(k)) == reg
  {
    var t := Task(k, interval, 0, initPaused);
    PutAppends(reg, t);
    DeleteAppended(reg, t);
  }

  /** Storing under a registered name replaces that entry where it stands. */
  lemma {:induction false} PutReplaces<K(!new)>(reg: Registry<K>, i: nat, t: Task<K>)
    requires Valid(reg) && i < |reg| && t.name == reg[i].name
    ensures Put(reg, t) == reg[i := t]
  {
    if i > 0 {
      assert reg == [reg[0]] + reg[1..];
      ValidCons(reg[0], reg[1..]);
      assert reg[0].name != reg[i].name;
      PutReplaces(reg[1..], i - 1, t);
      assert reg[i := t] == [reg[0]] + reg[1..][i - 1 := t];
    }
  }

  /** Adding under a name that is already registered replaces that task where it stands. */
  lemma AddReplacesInPlace<K(!new)>(reg: Registry<K>, i: nat, interval: nat, initPaused: bool)
    requires Valid(reg) && i < |reg|
    ensures AddTask(reg, Key(reg[i].name), interval, initPaused)
         == Success(reg[i := Task(reg[i].name, interval, 0, initPaused)])
  {
    PutReplaces(reg, i, Task(reg[i].name, interval, 0, initPaused));
  }

  // ---------------------------------------------------------------------------
  // statusTask

  /** The wildcard report lists, at each position, exactly what the single-name report gives for that task. */
  lemma StatusAllAgreesWithSingle<K(!new)>(reg: Registry<K>, i: nat)
    requires Valid(reg) && i < |reg|
    ensures StatusTask(reg, Key(reg[i].name)) == Single(StatusTask(reg, Star).statuses[i])
  {
    LookupAt(reg, i);
  }
}
