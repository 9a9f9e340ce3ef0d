/**
  The task entity and the registry that holds the tasks of one loop.

  The registry is JavaScript's `Map` from a task name to its record. A `Map`
  iterates in insertion order and that order is observable (it orders the
  dispatches of a tick and the entries of a status report), so the registry is
  an ordered sequence of tasks whose names are pairwise distinct.
*/
module Tasks {
  import opened Wrappers

  /** A name as callers pass it: the wildcard `'*'`, which selects every task, or an ordinary key. */
  datatype Name<K> = Star | Key(key: K)

  /**
    One task record. The callback is left out: a dispatch is represented by the
    task's name, which is the argument the callback receives.
  */
  datatype Task<K> = Task(name: K, anchor: nat, counter: nat, paused: bool)

  /** The tasks of one loop, in the iteration order of the underlying `Map`. */
  type Registry<K> = seq<Task<K>>

  /** A new registry together with the names whose callbacks were queued, in queueing order. */
  datatype Effect<K> = Effect(tasks: Registry<K>, dispatched: seq<K>)

  /** The names of the registry, in iteration order. */
  function Keys<K>(reg: Registry<K>): (ks: seq<K>)
    ensures |ks| == |reg|
    ensures forall i :: 0 <= i < |reg| ==> ks[i] == reg[i].name
  {
    if reg == [] then [] else [reg[0].name] + Keys(reg[1..])
  }

  /** Every name occurs at most once, as in a `Map`. */
  predicate Valid<K(==)>(reg: Registry<K>)
  {
    forall i, j :: 0 <= i < j < |reg| ==> reg[i].name != reg[j].name
  }

  /** `Map.get`: the task registered under `k`, if any. */
  function Lookup<K(==)>(reg: Registry<K>, k: K): Option<Task<K>>
  {
    if reg == [] then None
    else if reg[0].name == k then Some(reg[0])
    else Lookup(reg[1..], k)
  }

  /** Whether the name argument of an operation selects the task named `k`. */
  predicate Selects<K(==)>(name: Name<K>, k: K)
  {
    name.Star? || name.key == k
  }

  /** `a` is obtained from `b` by dropping elements, keeping the order of the rest. */
  predicate IsSubsequence<T(==)>(a: seq<T>, b: seq<T>)
    decreases |b|
  {
    if a == [] then true
    else if b == [] then false
    else if a[0] == b[0] then IsSubsequence(a[1..], b[1..])
    else IsSubsequence(a, b[1..])
  }

  /** `Map.set`: replaces the task with the same name where it stands, or appends a new one. */
  function Put<K(==)>(reg: Registry<K>, t: Task<K>): Registry<K>
  {
    if reg == [] then [t]
    else if reg[0].name == t.name then [t] + reg[1..]
    else [reg[0]] + Put(reg[1..], t)
  }

  /** `Map.delete`: removes the task named `k`, keeping the order of the others. */
  function Delete<K(==)>(reg: Registry<K>, k: K): Registry<K>
  {
    if reg == [] then []
    else if reg[0].name == k then Delete(reg[1..], k)
    else [reg[0]] + Delete(reg[1..], k)
  }

  /** `Map.get` finds a task exactly for the registered names, and the task it finds carries that name. */
  lemma {:induction false} LookupKeys<K(!new)>(reg: Registry<K>, k: K)
    ensures Lookup(reg, k).Some? <==> k in Keys(reg)
    ensures Lookup(reg, k).Some? ==> Lookup(reg, k).value.name == k
  {
    if reg != [] {
      KeysCons(reg[0], reg[1..]);
      assert [reg[0]] + reg[1..] == reg;
      LookupKeys(reg[1..], k);
    }
  }

  /** A registry is valid exactly when its head's name is fresh for a valid tail. */
  lemma ValidCons<K(!new)>(t: Task<K>, reg: Registry<K>)
    ensures Valid([t] + reg) <==> t.name !in Keys(reg) && Valid(reg)
  {
    var s := [t] + reg;
    if Valid(s) {
      forall i, j | 0 <= i < j < |reg| ensures reg[i].name != reg[j].name {
        assert s[i + 1] == reg[i] && s[j + 1] == reg[j];
      }
      forall i | 0 <= i < |reg| ensures Keys(reg)[i] != t.name {
        assert s[0] == t && s[i + 1] == reg[i];
        assert s[0].name != s[i + 1].name;
      }
    }
    if t.name !in Keys(reg) && Valid(reg) {
      forall i, j | 0 <= i < j < |s| ensures s[i].name != s[j].name {
        if i == 0 {
          assert s[j] == reg[j - 1];
          assert Keys(reg)[j - 1] == s[j].name;
        } else {
          assert s[i] == reg[i - 1] && s[j] == reg[j - 1];
        }
      }
    }
  }

  /** In a valid registry, looking up the name at position `i` finds the task at position `i`. */
  lemma {:induction false} LookupAt<K(!new)>(reg: Registry<K>, i: nat)
    requires Valid(reg) && i < |reg|
    ensures Lookup(reg, reg[i].name) == Some(reg[i])
  {
    if i > 0 {
      ValidCons(reg[0], reg[1..]);
      assert [reg[0]] + reg[1..] == reg;
      assert reg[0].name != reg[i].name;
      LookupAt(reg[1..], i - 1);
    }
  }

  /** Looking up in a registry with a known head. */
  lemma LookupCons<K(!new)>(t: Task<K>, reg: Registry<K>, k: K)
    ensures Lookup([t] + reg, k) == if t.name == k then Some(t) else Lookup(reg, k)
  {
  }

  /** The names of a registry with a known head. */
  lemma KeysCons<K>(t: Task<K>, reg: Registry<K>)
    ensures Keys([t] + reg) == [t.name] + Keys(reg)
  {
  }

  /** `Map.set` stores `t` under its name and leaves every other name's entry as it was. */
  lemma {:induction false} PutLookup<K(!new)>(reg: Registry<K>, t: Task<K>)
    ensures forall k :: Lookup(Put(reg, t), k) == if k == t.name then Some(t) else Lookup(reg, k)
  {
    if reg != [] {
      assert reg == [reg[0]] + reg[1..];
      PutLookup(reg[1..], t);
      forall k ensures Lookup(Put(reg, t), k) == if k == t.name then Some(t) else Lookup(reg, k) {
        LookupCons(reg[0], reg[1..], k);
        if reg[0].name == t.name {
          LookupCons(t, reg[1..], k);
        } else {
          LookupCons(reg[0], Put(reg[1..], t), k);
        }
      }
    }
  }

  /** `Map.set` keeps the position of an existing name and appends a new one. */
  lemma {:induction false} PutKeys<K(!new)>(reg: Registry<K>, t: Task<K>)
    ensures Keys(Put(reg, t)) == if t.name in Keys(reg) then Keys(reg) else Keys(reg) + [t.name]
  {
    if reg != [] {
      assert reg == [reg[0]] + reg[1..];
      KeysCons(reg[0], reg[1..]);
      if reg[0].name == t.name {
        KeysCons(t, reg[1..]);
      } else {
        PutKeys(reg[1..], t);
        KeysCons(reg[0], Put(reg[1..], t));
      }
    }
  }

  /** Validity depends on the names only. */
  lemma SameKeysValid<K(!new)>(a: Registry<K>, b: Registry<K>)
    requires Keys(a) == Keys(b) && Valid(a)
    ensures Valid(b)
  {
  }

  /** `Map.set` keeps names unique. */
  lemma PutValid<K(!new)>(reg: Registry<K>, t: Task<K>)
    ensures Valid(reg) ==> Valid(Put(reg, t))
  {
    var r := Put(reg, t);
    if !Valid(reg) { return; }
    PutKeys(reg, t);
    if t.name in Keys(reg) {
      SameKeysValid(reg, r);
    } else {
      forall i, j | 0 <= i < j < |r| ensures r[i].name != r[j].name {
        assert Keys(r)[i] == r[i].name && Keys(r)[j] == r[j].name;
        if j == |reg| {
          assert Keys(reg)[i] == r[i].name;
        } else {
          assert Keys(reg)[i] == r[i].name && Keys(reg)[j] == r[j].name;
        }
      }
    }
  }

  /** `Map.delete` removes the entry named `k` and leaves every other name's entry as it was. */
  lemma {:induction false} DeleteLookup<K(!new)>(reg: Registry<K>, k: K)
    ensures forall k' :: Lookup(Delete(reg, k), k') == if k' == k then None else Lookup(reg, k')
  {
    if reg != [] {
      assert reg == [reg[0]] + reg[1..];
      DeleteLookup(reg[1..], k);
      forall k' ensures Lookup(Delete(reg, k), k') == if k' == k then None else Lookup(reg, k') {
        LookupCons(reg[0], reg[1..], k');
        if reg[0].name != k {
          LookupCons(reg[0], Delete(reg[1..], k), k');
        }
      }
    }
  }

  /** `Map.delete` keeps the remaining names in order, and changes nothing when the name is absent. */
  lemma {:induction false} DeleteKeys<K(!new)>(reg: Registry<K>, k: K)
    ensures IsSubsequence(Keys(Delete(reg, k)), Keys(reg))
    ensures k !in Keys(reg) ==> Delete(reg, k) == reg
  {
    if reg != [] {
      assert reg == [reg[0]] + reg[1..];
      KeysCons(reg[0], reg[1..]);
      DeleteKeys(reg[1..], k);
      var d := Delete(reg[1..], k);
      if reg[0].name == k {
        SubsequenceSkip(Keys(d), Keys(reg));
      } else {
        KeysCons(reg[0], d);
        assert ([reg[0].name] + Keys(d))[1..] == Keys(d);
      }
    } else {
      assert Keys(Delete(reg, k)) == [];
    }
  }

  /** `Map.delete` keeps names unique and shrinks the registry by one exactly when the name was present. */
  lemma {:induction false} DeleteValid<K(!new)>(reg: Registry<K>, k: K)
    ensures Valid(reg) ==> Valid(Delete(reg, k))
    ensures Valid(reg) ==> |Delete(reg, k)| == if k in Keys(reg) then |reg| - 1 else |reg|
  {
    if reg != [] && Valid(reg) {
      assert reg == [reg[0]] + reg[1..];
      ValidCons(reg[0], reg[1..]);
      KeysCons(reg[0], reg[1..]);
      DeleteValid(reg[1..], k);
      var d := Delete(reg[1..], k);
      if reg[0].name != k {
        DeleteLookup(reg[1..], k);
        LookupKeys(reg[1..], reg[0].name);
        LookupKeys(d, reg[0].name);
        ValidCons(reg[0], d);
      } else {
        DeleteKeys(reg[1..], k);
      }
    }
  }

  /** Dropping the head of `b` keeps `a` a subsequence of `b`. */
  lemma {:induction false} SubsequenceSkip<T>(a: seq<T>, b: seq<T>)
    requires b != [] && IsSubsequence(a, b[1..])
    ensures IsSubsequence(a, b)
    decreases |b|, 0
  {
    if a != [] && a[0] == b[0] {
      SubsequenceDrop(a, b[1..]);
    }
  }

  /** Dropping the head of a non-empty subsequence keeps it a subsequence. */
  lemma {:induction false} SubsequenceDrop<T>(a: seq<T>, c: seq<T>)
    requires a != [] && IsSubsequence(a, c)
    ensures IsSubsequence(a[1..], c)
    decreases |c|, 1
  {
    if a[0] == c[0] {
      SubsequenceSkip(a[1..], c);
    } else {
      SubsequenceDrop(a, c[1..]);
      SubsequenceSkip(a[1..], c);
    }
  }

  /** Two registries with the same names find a name at the same position. */
  lemma {:induction false} LookupPosition<K(!new)>(a: Registry<K>, b: Registry<K>, k: K) returns (i: nat)
    requires Keys(a) == Keys(b) && k in Keys(a)
    ensures i < |a| && i < |b| && Lookup(a, k) == Some(a[i]) && Lookup(b, k) == Some(b[i])
  {
    assert a == [a[0]] + a[1..] && b == [b[0]] + b[1..];
    KeysCons(a[0], a[1..]);
    KeysCons(b[0], b[1..]);
    LookupCons(a[0], a[1..], k);
    LookupCons(b[0], b[1..], k);
    if a[0].name == k {
      i := 0;
    } else {
      assert Keys(a)[1..] == Keys(a[1..]) && Keys(b)[1..] == Keys(b[1..]);
      var j := LookupPosition(a[1..], b[1..], k);
      i := j + 1;
    }
  }
}
