/** Threads that all call `MapCacheHelper::getAndIncreaseSequence`, interleaved at the inner get, erase and save. Each
    inner operation runs under `insertMutex` and is one step; the whole call runs under
    `getAndIncreaseSequenceMutex`. */
module SequenceRace {
  import opened Text
  import opened Tables

  /** Where a call stands. `Returned` has left the critical section. */
  datatype PC =
    | Start
    | Locked
    | Read(found: Option<int>)
    | Erased(index: int)
    | Saved(success: bool, index: int)
    | Returned(success: bool, index: int)

  datatype Call = Call(key: string, pc: PC)

  /** A successful save, in the order the saves happened. */
  datatype Entry = Entry(thread: nat, key: string, index: int)

  /** `log` is history. */
  datatype State = State(table: map<string, int>, holder: Option<nat>, calls: seq<Call>, log: seq<Entry>)

  function Init(base: map<string, int>, keys: seq<string>): State {
    State(base, None, seq(|keys|, i requires 0 <= i < |keys| => Call(keys[i], Start)), [])
  }

  predicate Enabled(s: State, t: nat) {
    t < |s.calls| && !s.calls[t].pc.Returned? && (s.calls[t].pc.Start? ==> s.holder.None?)
  }

  function Goto(s: State, t: nat, pc: PC): State
    requires t < |s.calls|
  {
    s.(calls := s.calls[t := s.calls[t].(pc := pc)])
  }

  /** The next step of thread `t`. */
  function Step(s: State, t: nat): State
    requires Enabled(s, t)
  {
    var key := s.calls[t].key;
    match s.calls[t].pc
    case Start => Goto(s, t, Locked).(holder := Some(t))
    case Locked => Goto(s, t, Read(if key in s.table then Some(s.table[key]) else None))
    case Read(None) => Goto(s, t, Returned(false, 0)).(holder := None)
    case Read(Some(v)) => Goto(s, t, Erased(v + 1)).(table := s.table - {key})
    case Erased(index) =>
      if key in s.table then Goto(s, t, Saved(false, index))
      else Goto(s, t, Saved(true, index)).(table := s.table[key := index], log := s.log + [Entry(t, key, index)])
    case Saved(success, index) => Goto(s, t, Returned(success, index)).(holder := None)
    case Returned(_, _) => s
  }

  /** In every state, reachable or not, the three inner steps do what the methods `Get`, `Erase` and `Save` are proved
      to do: look up, remove, and insert without overwriting. */
  lemma InnerOperations(s: State, t: nat)
    requires Enabled(s, t)
    ensures var key, pc, s' := s.calls[t].key, s.calls[t].pc, Step(s, t);
            && (pc.Locked? ==>
                  && s'.table == s.table
                  && s'.calls[t].pc == Read(if key in s.table then Some(s.table[key]) else None))
            && (pc.Read? && pc.found.Some? ==>
                  s'.table == s.table - {key} && s'.calls[t].pc == Erased(pc.found.value + 1))
            && (pc.Erased? ==>
                  && s'.table == (if key in s.table then s.table else s.table[key := pc.index])
                  && s'.calls[t].pc == Saved(key !in s.table, pc.index))
  {
  }

  /** The state after a schedule of thread numbers; None when it asks a thread to run that cannot. */
  function Run(base: map<string, int>, keys: seq<string>, schedule: seq<nat>): Option<State> {
    if schedule == [] then Some(Init(base, keys))
    else
      var n := |schedule| - 1;
      var before := Run(base, keys, schedule[..n]);
      if before.Some? && Enabled(before.value, schedule[n]) then Some(Step(before.value, schedule[n])) else None
  }

  // ---------- invariant ----------

  function Saves(log: seq<Entry>, key: string): nat {
    if log == [] then 0 else Saves(log[..|log| - 1], key) + if log[|log| - 1].key == key then 1 else 0
  }

  predicate Inside(pc: PC) {
    pc.Locked? || pc.Read? || pc.Erased? || pc.Saved?
  }

  /** Only the holder of the outer mutex is inside. */
  ghost predicate Exclusive(s: State) {
    forall t :: 0 <= t < |s.calls| ==> (Inside(s.calls[t].pc) <==> s.holder == Some(t))
  }

  ghost predicate ErasedBySome(s: State, key: string) {
    exists t :: 0 <= t < |s.calls| && s.calls[t].key == key && s.calls[t].pc.Erased?
  }

  /** The table is the base table with every save counted, but for the key the holder has just erased. */
  ghost predicate TableExact(s: State, base: map<string, int>) {
    forall key ::
      && (key in s.table <==> key in base && !ErasedBySome(s, key))
      && (key in s.table ==> s.table[key] == base[key] + Saves(s.log, key))
  }

  /** What each call knows and will return. */
  ghost predicate CallExact(s: State, base: map<string, int>, t: nat)
    requires t < |s.calls|
  {
    var key := s.calls[t].key;
    match s.calls[t].pc
    case Read(found) => found == if key in base then Some(base[key] + Saves(s.log, key)) else None
    case Erased(index) => key in base && index == base[key] + Saves(s.log, key) + 1
    case Saved(success, index) => success && key in base && Entry(t, key, index) in s.log
    case Returned(success, index) => (success <==> key in base) && (success ==> Entry(t, key, index) in s.log)
    case _ => true
  }

  /** Saves on a key are numbered from its base value on. */
  ghost predicate LogNumbered(log: seq<Entry>, base: map<string, int>) {
    forall i :: 0 <= i < |log| ==>
                  && log[i].key in base
                  && log[i].index == base[log[i].key] + Saves(log[..i + 1], log[i].key)
  }

  /** A save belongs to a call that has made it and will return, or has returned, its index. */
  ghost predicate Owned(s: State, e: Entry) {
    && e.thread < |s.calls|
    && s.calls[e.thread].key == e.key
    && (s.calls[e.thread].pc == Saved(true, e.index) || s.calls[e.thread].pc == Returned(true, e.index))
  }

  ghost predicate LogOwned(s: State) {
    forall i :: 0 <= i < |s.log| ==> Owned(s, s.log[i])
  }

  ghost predicate OneSaveEach(log: seq<Entry>) {
    forall i, j :: 0 <= i < j < |log| ==> log[i].thread != log[j].thread
  }

  ghost predicate LogExact(s: State, base: map<string, int>) {
    LogNumbered(s.log, base) && LogOwned(s) && OneSaveEach(s.log)
  }

  ghost predicate Inv(s: State, base: map<string, int>) {
    && Exclusive(s)
    && TableExact(s, base)
    && (forall t: nat :: t < |s.calls| ==> CallExact(s, base, t))
    && LogExact(s, base)
  }

  lemma ExclusiveStep(s: State, t: nat)
    requires Exclusive(s) && Enabled(s, t)
    ensures Exclusive(Step(s, t))
  {
  }

  lemma SavesAppend(log: seq<Entry>, e: Entry, key: string)
    ensures Saves(log + [e], key) == Saves(log, key) + if e.key == key then 1 else 0
  {
    assert (log + [e])[..|log|] == log;
  }

  /** In an exclusive state only the holder can have erased anything. */
  lemma OnlyHolderErased(s: State, t: nat, key: string)
    requires Exclusive(s) && s.holder == Some(t) && t < |s.calls|
    ensures ErasedBySome(s, key) <==> s.calls[t].key == key && s.calls[t].pc.Erased?
  {
  }

  lemma TableStep(s: State, base: map<string, int>, t: nat)
    requires Inv(s, base) && Enabled(s, t)
    ensures TableExact(Step(s, t), base)
  {
    hide LogExact;
    var s' := Step(s, t);
    ExclusiveStep(s, t);
    assert CallExact(s, base, t);
    forall key
      ensures key in s'.table <==> key in base && !ErasedBySome(s', key)
      ensures key in s'.table ==> s'.table[key] == base[key] + Saves(s'.log, key)
    {
      if s.holder == Some(t) {
        OnlyHolderErased(s, t, key);
      }
      if s'.holder == Some(t) {
        OnlyHolderErased(s', t, key);
      } else {
        NobodyErased(s', key);
      }
      if s.holder.None? {
        NobodyErased(s, key);
      }
      if s.calls[t].pc.Erased? {
        SavesAppend(s.log, Entry(t, s.calls[t].key, s.calls[t].pc.index), key);
      }
    }
  }

  lemma NobodyErased(s: State, key: string)
    requires Exclusive(s) && s.holder.None?
    ensures !ErasedBySome(s, key)
  {
  }

  lemma CallStep(s: State, base: map<string, int>, t: nat, u: nat)
    requires Inv(s, base) && Enabled(s, t) && u < |s.calls|
    ensures CallExact(Step(s, t), base, u)
  {
    hide LogExact;
    var s' := Step(s, t);
    assert CallExact(s, base, u) && CallExact(s, base, t);
    assert s.log <= s'.log;
    if u == t {
      OnlyHolderErasedIfInside(s, t);
    } else {
      assert s'.calls[u] == s.calls[u];
      assert !Inside(s.calls[u].pc);
    }
  }

  lemma OnlyHolderErasedIfInside(s: State, t: nat)
    requires Exclusive(s) && t < |s.calls|
    ensures Inside(s.calls[t].pc) ==> (ErasedBySome(s, s.calls[t].key) <==> s.calls[t].pc.Erased?)
  {
    if Inside(s.calls[t].pc) {
      OnlyHolderErased(s, t, s.calls[t].key);
    }
  }

  lemma LogNumberedAppend(log: seq<Entry>, base: map<string, int>, e: Entry)
    requires LogNumbered(log, base) && e.key in base && e.index == base[e.key] + Saves(log, e.key) + 1
    ensures LogNumbered(log + [e], base)
  {
    var log' := log + [e];
    forall i | 0 <= i < |log'|
      ensures log'[i].key in base && log'[i].index == base[log'[i].key] + Saves(log'[..i + 1], log'[i].key)
    {
      if i < |log| {
        assert log'[i] == log[i] && log'[..i + 1] == log[..i + 1];
      } else {
        assert log'[..i + 1] == log';
        SavesAppend(log, e, e.key);
      }
    }
  }

  lemma OwnedStays(s: State, t: nat, e: Entry)
    requires Owned(s, e) && Enabled(s, t)
    ensures Owned(Step(s, t), e)
  {
  }

  lemma LogStep(s: State, base: map<string, int>, t: nat)
    requires Inv(s, base) && Enabled(s, t)
    ensures LogExact(Step(s, t), base)
  {
    hide Owned, Saves, TableExact, Exclusive;
    var s' := Step(s, t);
    assert CallExact(s, base, t);
    forall i | 0 <= i < |s.log| ensures Owned(s', s.log[i]) {
      OwnedStays(s, t, s.log[i]);
    }
    if s'.log != s.log {
      var e := Entry(t, s.calls[t].key, s.calls[t].pc.index);
      assert s'.log == s.log + [e];
      LogNumberedAppend(s.log, base, e);
      NewSaveOwned(s, t);
    }
  }

  lemma NewSaveOwned(s: State, t: nat)
    requires Enabled(s, t) && s.calls[t].pc.Erased? && s.calls[t].key !in s.table
    ensures Owned(Step(s, t), Entry(t, s.calls[t].key, s.calls[t].pc.index))
    ensures forall e :: Owned(s, e) ==> e.thread != t
  {
  }

  lemma StepKeepsInv(s: State, base: map<string, int>, t: nat)
    requires Inv(s, base) && Enabled(s, t)
    ensures Inv(Step(s, t), base)
    ensures |Step(s, t).calls| == |s.calls|
    ensures forall u :: 0 <= u < |s.calls| ==> Step(s, t).calls[u].key == s.calls[u].key
  {
    hide Exclusive, TableExact, CallExact, LogExact;
    ExclusiveStep(s, t);
    TableStep(s, base, t);
    LogStep(s, base, t);
    forall u: nat | u < |s.calls| ensures CallExact(Step(s, t), base, u) {
      CallStep(s, base, t, u);
    }
  }

  lemma InitInv(base: map<string, int>, keys: seq<string>)
    ensures Inv(Init(base, keys), base)
  {
  }

  lemma {:induction false} EveryRunKeepsInv(base: map<string, int>, keys: seq<string>, schedule: seq<nat>)
    requires Run(base, keys, schedule).Some?
    ensures var s := Run(base, keys, schedule).value;
            Inv(s, base) && |s.calls| == |keys| && forall t :: 0 <= t < |keys| ==> s.calls[t].key == keys[t]
  {
    hide Inv, Step;
    if schedule == [] {
      InitInv(base, keys);
    } else {
      var n := |schedule| - 1;
      EveryRunKeepsInv(base, keys, schedule[..n]);
      StepKeepsInv(Run(base, keys, schedule[..n]).value, base, schedule[n]);
    }
  }

  // ---------- theorems ----------

  /** Before any step but those in `sofar`, call `t` has returned and call `u` has not started. */
  ghost predicate ReturnedBeforeStart(base: map<string, int>, keys: seq<string>, sofar: seq<nat>, t: nat, u: nat) {
    var r := Run(base, keys, sofar);
    r.Some? && t < |r.value.calls| && u < |r.value.calls| && r.value.calls[t].pc.Returned? && r.value.calls[u].pc.Start?
  }

  /** The save of call `t`, if there is one, comes before that of call `u`. */
  ghost predicate Precedes(log: seq<Entry>, t: nat, u: nat) {
    forall i, j :: 0 <= i < |log| && 0 <= j < |log| && log[i].thread == t && log[j].thread == u ==> i < j
  }

  lemma {:induction false} LogGrows(base: map<string, int>, keys: seq<string>, schedule: seq<nat>, n: nat)
    requires Run(base, keys, schedule).Some? && n <= |schedule|
    ensures Run(base, keys, schedule[..n]).Some?
    ensures Run(base, keys, schedule[..n]).value.log <= Run(base, keys, schedule).value.log
    decreases |schedule|
  {
    var last := |schedule| - 1;
    if n <= last {
      LogGrows(base, keys, schedule[..last], n);
      assert schedule[..last][..n] == schedule[..n];
    } else {
      assert schedule[..n] == schedule;
    }
  }

  /** Saves keep real-time order. */
  lemma RealTimeOrder(base: map<string, int>, keys: seq<string>, schedule: seq<nat>, n: nat, t: nat, u: nat)
    requires Run(base, keys, schedule).Some? && n <= |schedule|
    requires ReturnedBeforeStart(base, keys, schedule[..n], t, u)
    ensures Precedes(Run(base, keys, schedule).value.log, t, u)
  {
    hide Run, TableExact, Exclusive, LogNumbered;
    LogGrows(base, keys, schedule, n);
    EveryRunKeepsInv(base, keys, schedule);
    EveryRunKeepsInv(base, keys, schedule[..n]);
    var past, s := Run(base, keys, schedule[..n]).value, Run(base, keys, schedule).value;
    NotSavedYet(past, s.log, u);
    forall i, j | 0 <= i < |s.log| && 0 <= j < |s.log| && s.log[i].thread == t && s.log[j].thread == u ensures i < j {
      SavedEarly(past, s, base, t, i);
    }
  }

  lemma NotSavedYet(past: State, log: seq<Entry>, u: nat)
    requires LogOwned(past) && past.log <= log && u < |past.calls| && past.calls[u].pc.Start?
    ensures forall j :: 0 <= j < |past.log| ==> log[j].thread != u
  {
    forall j | 0 <= j < |past.log| ensures log[j].thread != u {
      assert Owned(past, past.log[j]) && log[j] == past.log[j];
    }
  }

  /** The only save of a returned call was made before it returned. */
  lemma SavedEarly(past: State, s: State, base: map<string, int>, t: nat, i: nat)
    requires Inv(past, base) && Inv(s, base) && past.log <= s.log
    requires t < |past.calls| && past.calls[t].pc.Returned?
    requires t < |s.calls| && past.calls[t].key == s.calls[t].key
    requires i < |s.log| && s.log[i].thread == t
    ensures i < |past.log|
  {
    hide TableExact, Exclusive, Saves;
    assert Owned(s, s.log[i]);
    assert CallExact(past, base, t);
    var e := Entry(t, past.calls[t].key, past.calls[t].pc.index);
    var j :| 0 <= j < |past.log| && past.log[j] == e;
    assert s.log[j] == e;
  }

  /** Linearizability: in any interleaving the successful saves form a sequential history in which the k-th call on a
      key returns its base value plus k, every call returns what its own save in that history says, and a call that
      returned before another started precedes it. Calls succeed exactly on keys that were present. */
  lemma Linearizable(base: map<string, int>, keys: seq<string>, schedule: seq<nat>)
    requires Run(base, keys, schedule).Some?
    ensures var s := Run(base, keys, schedule).value;
            && LogExact(s, base)
            && |s.calls| == |keys|
            && (forall t :: 0 <= t < |keys| && s.calls[t].pc.Returned? ==>
                  && (s.calls[t].pc.success <==> keys[t] in base)
                  && (s.calls[t].pc.success ==> Entry(t, keys[t], s.calls[t].pc.index) in s.log))
            && (forall n: nat, t: nat, u: nat ::
                  n <= |schedule| && ReturnedBeforeStart(base, keys, schedule[..n], t, u) ==> Precedes(s.log, t, u))
  {
    hide ReturnedBeforeStart, Precedes;
    EveryRunKeepsInv(base, keys, schedule);
    var s := Run(base, keys, schedule).value;
    forall t | 0 <= t < |keys| && s.calls[t].pc.Returned?
      ensures s.calls[t].pc.success <==> keys[t] in base
      ensures s.calls[t].pc.success ==> Entry(t, keys[t], s.calls[t].pc.index) in s.log
    {
      assert CallExact(s, base, t);
    }
    forall n: nat, t: nat, u: nat | n <= |schedule| && ReturnedBeforeStart(base, keys, schedule[..n], t, u)
      ensures Precedes(s.log, t, u)
    {
      RealTimeOrder(base, keys, schedule, n, t, u);
    }
  }

  /** How many calls are made on a key. */
  function CallsOn(keys: seq<string>, key: string): nat {
    if keys == [] then 0 else CallsOn(keys[..|keys| - 1], key) + if keys[|keys| - 1] == key then 1 else 0
  }

  ghost predicate AllReturned(s: State) {
    forall t :: 0 <= t < |s.calls| ==> s.calls[t].pc.Returned?
  }

  /** Index `x` was returned by exactly one call on the key. */
  ghost predicate ReturnedOnce(s: State, key: string, x: int) {
    exists t: nat :: t < |s.calls| && OnlyReturnOf(s, key, x, t)
  }

  ghost predicate OnlyReturnOf(s: State, key: string, x: int, t: nat)
    requires t < |s.calls|
  {
    && s.calls[t] == Call(key, Returned(true, x))
    && forall u :: 0 <= u < |s.calls| && s.calls[u] == Call(key, Returned(true, x)) ==> u == t
  }

  /** When `n` calls on a key that held `v` have all returned, each of v+1, ..., v+n was returned by exactly one of
      them, and the key holds v+n; keys that were absent still are. */
  lemma EachIndexOnce(base: map<string, int>, keys: seq<string>, schedule: seq<nat>, key: string)
    requires Run(base, keys, schedule).Some? && AllReturned(Run(base, keys, schedule).value)
    ensures var s := Run(base, keys, schedule).value;
            && s.table.Keys == base.Keys
            && (key in base ==>
                  && s.table[key] == base[key] + CallsOn(keys, key)
                  && forall x :: base[key] < x <= base[key] + CallsOn(keys, key) ==> ReturnedOnce(s, key, x))
  {
    hide Run, Saves, CallsOn, ReturnedOnce;
    EveryRunKeepsInv(base, keys, schedule);
    var s := Run(base, keys, schedule).value;
    forall k ensures k in s.table <==> k in base { }
    if key in base {
      SavesAreCalls(s, base, keys, key);
      forall x | base[key] < x <= base[key] + CallsOn(keys, key) ensures ReturnedOnce(s, key, x) {
        SavedIndexReturnedOnce(s, base, key, x);
      }
    }
  }

  lemma SavedIndexReturnedOnce(s: State, base: map<string, int>, key: string, x: int)
    requires Inv(s, base) && AllReturned(s) && key in base && base[key] < x <= base[key] + Saves(s.log, key)
    ensures ReturnedOnce(s, key, x)
  {
    hide TableExact, Exclusive, Saves;
    var i := SaveWithRank(s.log, key, x - base[key]);
    var t := s.log[i].thread;
    assert Owned(s, s.log[i]);
    forall u: nat | u < |s.calls| && s.calls[u] == Call(key, Returned(true, x)) ensures u == t {
      assert CallExact(s, base, u);
      var j :| 0 <= j < |s.log| && s.log[j] == Entry(u, key, x);
      if i != j {
        RanksDiffer(s.log, key, i, j);
      }
    }
    assert OnlyReturnOf(s, key, x, t);
  }

  lemma {:induction false} SaveWithRank(log: seq<Entry>, key: string, rank: int) returns (i: nat)
    requires 1 <= rank <= Saves(log, key)
    ensures i < |log| && log[i].key == key && Saves(log[..i + 1], key) == rank
  {
    var n := |log| - 1;
    if log[n].key == key && Saves(log, key) == rank {
      i := n;
      assert log[..n + 1] == log;
    } else {
      i := SaveWithRank(log[..n], key, rank);
      assert log[..n][..i + 1] == log[..i + 1];
    }
  }

  lemma {:induction false} SavesMonotone(log: seq<Entry>, key: string, i: nat, j: nat)
    requires i <= j <= |log|
    ensures Saves(log[..i], key) <= Saves(log[..j], key)
    decreases j
  {
    if i < j {
      SavesMonotone(log, key, i, j - 1);
      assert log[..j][..j - 1] == log[..j - 1];
    }
  }

  lemma RanksDiffer(log: seq<Entry>, key: string, i: nat, j: nat)
    requires i < |log| && j < |log| && i != j && log[i].key == key && log[j].key == key
    ensures Saves(log[..i + 1], key) != Saves(log[..j + 1], key)
  {
    var lo, hi := if i < j then i else j, if i < j then j else i;
    SavesMonotone(log, key, lo + 1, hi);
    assert log[..hi + 1][..hi] == log[..hi];
  }

  /** The threads in the log that called on a key, and the threads that called on it, are as many. */
  lemma SavesAreCalls(s: State, base: map<string, int>, keys: seq<string>, key: string)
    requires Inv(s, base) && AllReturned(s) && key in base
    requires |s.calls| == |keys| && forall t :: 0 <= t < |keys| ==> s.calls[t].key == keys[t]
    ensures Saves(s.log, key) == CallsOn(keys, key)
  {
    hide TableExact, Exclusive, LogNumbered, Savers;
    var savers := Savers(s.log, key);
    var callers := Callers(keys, key);
    SaversCount(s.log, key);
    CallersCount(keys, key);
    forall t: nat ensures t in savers <==> t in callers {
      SaversMember(s.log, key, t);
      if t in callers {
        assert CallExact(s, base, t);
        assert Entry(t, key, s.calls[t].pc.index) in s.log;
      }
    }
    assert savers == callers;
  }

  function Savers(log: seq<Entry>, key: string): set<nat> {
    if log == [] then {}
    else Savers(log[..|log| - 1], key) + if log[|log| - 1].key == key then {log[|log| - 1].thread} else {}
  }

  lemma {:induction false} SaversMember(log: seq<Entry>, key: string, t: nat)
    ensures t in Savers(log, key) <==> exists i :: 0 <= i < |log| && log[i].key == key && log[i].thread == t
  {
    if log != [] {
      var n := |log| - 1;
      SaversMember(log[..n], key, t);
      if i :| 0 <= i < |log| && log[i].key == key && log[i].thread == t && i < n {
        assert log[..n][i] == log[i];
      }
    }
  }

  function Callers(keys: seq<string>, key: string): set<nat> {
    set t: nat | t < |keys| && keys[t] == key
  }

  lemma {:induction false} SaversCount(log: seq<Entry>, key: string)
    requires forall i, j :: 0 <= i < j < |log| ==> log[i].thread != log[j].thread
    ensures |Savers(log, key)| == Saves(log, key)
  {
    if log != [] {
      var n := |log| - 1;
      SaversCount(log[..n], key);
      SaversMember(log[..n], key, log[n].thread);
    }
  }

  lemma {:induction false} CallersCount(keys: seq<string>, key: string)
    ensures |Callers(keys, key)| == CallsOn(keys, key)
  {
    if keys != [] {
      var n := |keys| - 1;
      CallersCount(keys[..n], key);
      if keys[n] == key {
        assert Callers(keys, key) == Callers(keys[..n], key) + {n};
      } else {
        assert Callers(keys, key) == Callers(keys[..n], key);
      }
    }
  }

  /** A plain `get` beside these calls (the one at the start of `deal` takes no part in the outer mutex) misses a key
      that is in use exactly while some call is between its erase and its save. */
  lemma OutsideReaderMisses(base: map<string, int>, keys: seq<string>, schedule: seq<nat>, key: string)
    requires Run(base, keys, schedule).Some? && key in base
    ensures key !in Run(base, keys, schedule).value.table <==> ErasedBySome(Run(base, keys, schedule).value, key)
  {
    EveryRunKeepsInv(base, keys, schedule);
  }

  /** The three steps that take a call of a present key past its erase. */
  lemma MissedAfterErase(base: map<string, int>, keys: seq<string>, t: nat)
    requires t < |keys| && keys[t] in base
    ensures Run(base, keys, [t, t, t]).Some? && keys[t] !in Run(base, keys, [t, t, t]).value.table
  {
    var none: seq<nat> := [];
    var one: seq<nat> := [t];
    var two: seq<nat> := [t, t];
    var three: seq<nat> := [t, t, t];
    assert one[..0] == none && two[..1] == one && three[..2] == two;
    assert Run(base, keys, none) == Some(Init(base, keys));
    assert Run(base, keys, one).value.calls[t].pc == Locked;
    assert Run(base, keys, two).value.calls[t].pc == Read(Some(base[keys[t]]));
  }

  /** Whom this can befall: a `get` of a key in use can miss it exactly when some other thread calls
      `getAndIncreaseSequence` on that key. */
  lemma ReaderCanMiss(base: map<string, int>, keys: seq<string>, key: string)
    requires key in base
    ensures (exists schedule :: Run(base, keys, schedule).Some? && key !in Run(base, keys, schedule).value.table)
            <==> key in keys
  {
    hide Run;
    if schedule :| Run(base, keys, schedule).Some? && key !in Run(base, keys, schedule).value.table {
      OutsideReaderMisses(base, keys, schedule, key);
      EveryRunKeepsInv(base, keys, schedule);
    }
    if t: nat :| t < |keys| && keys[t] == key {
      MissedAfterErase(base, keys, t);
    }
  }

  /** A call that runs alone, step by step, has the effect the sequential method is proved to have, on present and on
      absent keys. */
  lemma SoloCall(s: State, t: nat)
    requires t < |s.calls| && s.calls[t].pc.Start? && s.holder.None?
    ensures var key := s.calls[t].key;
            var index := NextIndex(s.table, key);
            var alone := Steps(s, t, if key in s.table then 5 else 3);
            && alone.Some? && alone.value.holder.None?
            && alone.value.table == (if key in s.table then s.table[key := index] else s.table)
            && alone.value.calls ==
               s.calls[t := Call(key, if key in s.table then Returned(true, index) else Returned(false, 0))]
  {
    var key := s.calls[t].key;
    var s1 := Step(s, t);
    var s2 := Step(s1, t);
    var s3 := Step(s2, t);
    if key in s.table {
      var s4 := Step(s3, t);
      var s5 := Step(s4, t);
      assert s5.table == s.table[key := s.table[key] + 1];
      assert Steps(s4, t, 1) == Some(s5) && Steps(s3, t, 2) == Some(s5) && Steps(s2, t, 3) == Some(s5);
      assert Steps(s1, t, 4) == Some(s5);
    } else {
      assert Steps(s2, t, 1) == Some(s3) && Steps(s1, t, 2) == Some(s3);
    }
  }

  /** `n` steps of one thread in a row. */
  function Steps(s: State, t: nat, n: nat): Option<State>
    decreases n
  {
    if n == 0 then Some(s) else if Enabled(s, t) then Steps(Step(s, t), t, n - 1) else None
  }

  /** Who can run: every call that has not returned, unless another is inside. */
  lemma EnabledIff(base: map<string, int>, keys: seq<string>, schedule: seq<nat>, t: nat)
    requires Run(base, keys, schedule).Some? && t < |keys|
    ensures var s := Run(base, keys, schedule).value;
            && t < |s.calls|
            && (Enabled(s, t) <==> !s.calls[t].pc.Returned? && (s.holder.None? || s.holder == Some(t)))
  {
    EveryRunKeepsInv(base, keys, schedule);
  }

  /** No deadlock: while some call has not returned, some thread can run. */
  lemma SomeThreadCanRun(base: map<string, int>, keys: seq<string>, schedule: seq<nat>)
    requires Run(base, keys, schedule).Some? && !AllReturned(Run(base, keys, schedule).value)
    ensures exists t: nat :: Enabled(Run(base, keys, schedule).value, t)
  {
    EveryRunKeepsInv(base, keys, schedule);
    var s := Run(base, keys, schedule).value;
    var t: nat :| t < |s.calls| && !s.calls[t].pc.Returned?;
    if s.calls[t].pc.Start? && s.holder.Some? {
      HolderIsACall(base, keys, schedule);
      assert Enabled(s, s.holder.value);
    } else {
      assert Enabled(s, t);
    }
  }

  lemma {:induction false} HolderIsACall(base: map<string, int>, keys: seq<string>, schedule: seq<nat>)
    requires Run(base, keys, schedule).Some?
    ensures var s := Run(base, keys, schedule).value; s.holder.Some? ==> s.holder.value < |s.calls|
  {
    if schedule != [] {
      HolderIsACall(base, keys, schedule[..|schedule| - 1]);
    }
  }
}
