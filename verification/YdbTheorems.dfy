/** What every reachable state of the scheduler guarantees, and runs that show what it does not. */
module YdbTheorems {
  import opened Options
  import opened YdbOp
  import opened YdbLock
  import opened YdbDeadlock
  import opened YdbSched
  import opened YdbRuns

  /** Locks over whole runs: holder lists are never empty and writers are alone, nobody's
      multiplicity exceeds the operations it was granted (on a read-locked key they are equal),
      it was granted at most one write-type
      operation per key, and an ended transaction holds nothing. */
  lemma LockSafety(s: Db, m: Store, t: Trans, k: string)
    requires Reachable(s, m)
    ensures Sane(s.locks)
    ensures Mult(s.locks, k, t) <= CountKey(LiveOps(s, t), k)
    ensures ReadLockedItem(s.locks, k) ==> Mult(s.locks, k, t) == CountKey(LiveOps(s, t), k)
    ensures CountWrites(LiveOps(s, t), k) <= 1
    ensures CountWrites(LiveOps(s, t), k) == 1 <==> k in s.locks && s.locks[k] == LockInfo(WriteLock, [t])
    ensures !Live(s, t) ==> Mult(s.locks, k, t) == 0
  {
    ReachableInv(s, m);
    assert Accounts(s.locks, t, k, LiveOps(s, t));
    if WriteHeld(s.locks, k, t) {
      ExclusiveMult(s.locks, k, t, t);
    }
  }

  /** A refused request finds the holders that refused it, all of them live: the assertion
      at ydb/ydb_sched.cpp:39 cannot fail. */
  lemma RefusalFindsLiveHolders(s: Db, m: Store, t: Trans, op: Op)
    requires Reachable(s, m) && !Locked(s.locks, t, op).0
    ensures op.key in s.locks && s.locks[op.key].holders != []
    ensures forall h :: h in s.locks[op.key].holders ==> Live(s, h)
  {
    ReachableInv(s, m);
    RefusedMeansHeld(s.locks, t, op);
    forall h | h in s.locks[op.key].holders
      ensures Live(s, h)
    {
      assert Accounts(s.locks, h, op.key, LiveOps(s, h));
      assert h in multiset(s.locks[op.key].holders);
    }
  }

  /** The wait graph over whole runs. */
  lemma WaitGraphBookkeeping(s: Db, m: Store, x: Trans, y: Trans)
    requires Reachable(s, m)
    ensures Edges(s.tree.blockedBy, x, y) == Edges(s.tree.blocks, y, x)
    ensures Edges(s.tree.blockedBy, x, y) > 0 ==> Live(s, y)
    ensures x != y ==> Edges(s.tree.blockedBy, x, y) == 0 || Edges(s.tree.blockedBy, y, x) == 0
    ensures y in Successors(s.tree.blocks, x) ==> y in s.tree.blockedBy
  {
    ReachableInv(s, m);
    RemoveKeepsConsistent(s.tree, x);
  }

  lemma {:induction false} LogGrows(s: Db, es: seq<Event>, t: Trans)
    requires Legal(s, es) && t in s.trans
    ensures t in Run(s, es).trans && s.trans[t].log <= Run(s, es).trans[t].log
    decreases |es|
  {
    if es != [] {
      var s' := Next(s, es[0]);
      assert t in s'.trans && s.trans[t].log <= s'.trans[t].log;
      LogGrows(s', es[1..], t);
    }
  }

  lemma {:induction false} CountWritesPositive(log: seq<Entry>, e: Entry)
    requires e in log && !e.op.Read?
    ensures CountWrites(OpsOf(log), e.op.key) > 0
  {
    var front, last := log[..|log| - 1], log[|log| - 1];
    assert log == front + [last];
    OpsOfSnoc(front, last);
    CountsSnoc(OpsOf(front), last.op, e.op.key);
    if last != e {
      assert e in front;
      CountWritesPositive(front, e);
    }
  }

  /** Undoing a log puts back what its only write of a key had found there. */
  lemma {:induction false} UndoPutsBack(m: Store, log: seq<Entry>, e: Entry)
    requires e in log && !e.op.Read? && e.seen.Some?
    requires CountWrites(OpsOf(log), e.op.key) <= 1
    ensures Lookup(UndoAll(m, log), e.op.key) == e.seen
  {
    var front, last := log[..|log| - 1], log[|log| - 1];
    assert log == front + [last];
    OpsOfSnoc(front, last);
    CountsSnoc(OpsOf(front), last.op, e.op.key);
    LogSnoc(m, front, last);
    if last != e {
      assert e in front;
      CountWritesPositive(front, e);
      UndoPutsBack(m, front, e);
    }
  }

  /** Every write-type operation of the log on `k` found nothing there. */
  predicate FoundNothing(log: seq<Entry>, k: string) {
    forall i :: 0 <= i < |log| && Writes(log[i].op, k) ==> log[i].seen.None?
  }

  lemma {:induction false} UndoLeavesAlone(m: Store, log: seq<Entry>, k: string)
    requires FoundNothing(log, k)
    ensures Lookup(UndoAll(m, log), k) == Lookup(m, k)
  {
    if log == [] {
      LogOfNothing(m);
    } else {
      var front, e := log[..|log| - 1], log[|log| - 1];
      assert log == front + [e];
      UndoLeavesAlone(m, front, k);
      LogSnoc(m, front, e);
    }
  }

  /** Rollback under concurrency: `t` is about to overwrite or delete a key that exists; after
      whatever `t` and all the others do from there, rolling `t` back returns the key to the
      value it had then, and changes no key that `t` did not write, or wrote only where it had
      found nothing. */
  lemma RollbackUnderConcurrency(s: Db, m: Store, t: Trans, between: seq<Event>)
    requires Reachable(s, m) && Enabled(s, Put(t)) && s.trans[t].phase.seen.Some?
    requires Legal(Next(s, Put(t)), between) && Enabled(Run(Next(s, Put(t)), between), Rollback(t))
    ensures var s2 := Run(Next(s, Put(t)), between);
            var s3 := Next(s2, Rollback(t));
            var key := s.trans[t].phase.op.key;
            && Lookup(s3.store, key) == Lookup(s.store, key)
            && forall k :: FoundNothing(s2.trans[t].log, k) || CountWrites(OpsOf(s2.trans[t].log), k) == 0 ==>
                 Lookup(s3.store, k) == Lookup(s2.store, k)
  {
    ReachableInv(s, m);
    assert FetchedOk(s, t);
    var e := Entry(s.trans[t].phase.op, s.trans[t].phase.seen);
    var s1 := Next(s, Put(t));
    StepKeepsInv(s, m, Put(t));
    RunKeepsInv(s1, m, between);
    LogGrows(s1, between, t);
    var s2 := Run(s1, between);
    var log := s2.trans[t].log;
    assert s1.trans[t].log[|s1.trans[t].log| - 1] == e && e in log;
    LiveLogWrites(s2, t, e.op.key);
    UndoPutsBack(s2.store, log, e);
    forall k | FoundNothing(log, k) || CountWrites(OpsOf(log), k) == 0
      ensures Lookup(UndoAll(s2.store, log), k) == Lookup(s2.store, k)
    {
      if FoundNothing(log, k) { UndoLeavesAlone(s2.store, log, k); } else { UnwrittenKeyUnchanged(s2.store, log, k); }
    }
  }

  // ----- Runs that go wrong -------------------------------------------------

  lemma {:induction false} RunSplit(s: Db, es: seq<Event>, e: Event)
    requires Legal(s, es) && Enabled(Run(s, es), e)
    ensures Legal(s, es + [e]) && Run(s, es + [e]) == Next(Run(s, es), e)
    decreases |es|
  {
    if es != [] {
      RunSplit(Next(s, es[0]), es[1..], e);
      assert (es + [e])[1..] == es[1..] + [e];
    } else {
      assert Legal(Next(s, e), [e][1..]);
    }
  }

  lemma ReachableStep(s: Db, m: Store, e: Event)
    requires Reachable(s, m) && Enabled(s, e)
    ensures Reachable(Next(s, e), m)
  {
    var es :| Legal(Init(m), es) && Run(Init(m), es) == s;
    RunSplit(Init(m), es, e);
  }

  lemma ReachableInit(m: Store)
    ensures Reachable(Init(m), m)
  {
    assert Legal(Init(m), []) && Run(Init(m), []) == Init(m);
  }

  /** `t` opens and is granted the write lock of an unlocked key. */
  lemma OpenAndLock(s: Db, m: Store, t: Trans, op: Op) returns (s': Db)
    requires Reachable(s, m) && t !in s.trans && op.key !in s.locks && !op.Read?
    ensures Reachable(s', m)
    ensures s' == s.(locks := s.locks[op.key := LockInfo(WriteLock, [t])], trans := s.trans[t := TransState([], Granted(op))])
  {
    ReachableStep(s, m, Open(t));
    var s1 := Next(s, Open(t));
    ReachableStep(s1, m, Acquire(t, op));
    s' := Next(s1, Acquire(t, op));
  }

  /** It executes its first operation, a write. */
  lemma FirstWrite(s: Db, m: Store, t: Trans, k: string, v: string) returns (s': Db)
    requires Reachable(s, m) && t in s.trans && s.trans[t] == TransState([], Granted(Write(k, v)))
    ensures Reachable(s', m)
    ensures s' == s.(store := s.store[k := v],
                     trans := s.trans[t := TransState([Entry(Write(k, v), Lookup(s.store, k))], Idle)])
  {
    ReachableStep(s, m, Fetch(t));
    var s1 := Next(s, Fetch(t));
    ReachableStep(s1, m, Put(t));
    s' := Next(s1, Put(t));
    var e := Entry(Write(k, v), Lookup(s.store, k));
    assert [] + [e] == [e];
    assert s'.trans == s.trans[t := TransState([e], Idle)];
  }

  /** `t` opens and is granted and executes its first operation, a write of an unlocked key. */
  lemma OpenAndWrite(s: Db, m: Store, t: Trans, k: string, v: string) returns (s': Db)
    requires Reachable(s, m) && t !in s.trans && k !in s.locks
    ensures Reachable(s', m)
    ensures s' == s.(store := s.store[k := v], locks := s.locks[k := LockInfo(WriteLock, [t])],
                     trans := s.trans[t := TransState([Entry(Write(k, v), Lookup(s.store, k))], Idle)])
  {
    var s1 := OpenAndLock(s, m, t, Write(k, v));
    s' := FirstWrite(s1, m, t, k, v);
    var e := Entry(Write(k, v), Lookup(s.store, k));
    assert s'.trans == s.trans[t := TransState([e], Idle)];
  }

  /** A transaction that wrote one key commits or rolls back, and nobody waits for it. */
  lemma EndSingleWrite(s: Db, m: Store, t: Trans, e: Entry, commit: bool) returns (s': Db)
    requires Reachable(s, m) && t in s.trans && s.trans[t] == TransState([e], Idle) && t !in s.tree.blocks
    requires e.op.key in s.locks && s.locks[e.op.key].holders == [t]
    ensures Reachable(s', m)
    ensures s' == s.(store := if commit then s.store else Undo(s.store, e), locks := s.locks - {e.op.key},
                     history := s.history + [if commit then Kept([e]) else Dropped([e])],
                     trans := s.trans[t := TransState([e], if commit then Committed else Aborted)])
  {
    assert OpsOf([e]) == [e.op];
    assert UnlockedAll(s.locks, t, [e.op]) == Unlocked(s.locks, t, e.op.key);
    assert RemoveFirst([t], t) == [];
    LogOfOne(s.store, e);
    var end := if commit then Commit(t) else Rollback(t);
    ReachableStep(s, m, end);
    s' := Next(s, end);
  }

  /** A rolled-back write of a new key stays in the map. */
  lemma ResidueRun() returns (s: Db)
    ensures Reachable(s, map[]) && s.history == [Dropped([Entry(Write("k", "v"), None)])]
    ensures s.store == map["k" := "v"] && s.locks == map[]
    ensures Serial(map[], KeptOnly(s.history)) == map[]
  {
    var m: Store := map[];
    ReachableInit(m);
    var s1 := OpenAndWrite(Init(m), m, 1, "k", "v");
    s := EndSingleWrite(s1, m, 1, Entry(Write("k", "v"), None), false);
    KeptOnlySnoc([], s.history[0]);
    assert [] + [s.history[0]] == s.history;
  }

  // ----- A second rollback --------------------------------------------------

  /** Every write-type operation that found a value finds it in the map again. */
  predicate OldValuesStand(m: Store, log: seq<Entry>) {
    forall i :: 0 <= i < |log| ==> !log[i].op.Read? && log[i].seen.Some? ==> Lookup(m, log[i].op.key) == log[i].seen
  }

  lemma {:induction false} UndoOfStanding(m: Store, log: seq<Entry>)
    requires OldValuesStand(m, log)
    ensures UndoAll(m, log) == m
  {
    if log == [] {
      LogOfNothing(m);
    } else {
      var front, e := log[..|log| - 1], log[|log| - 1];
      assert log == front + [e];
      UndoOfStanding(m, front);
      LogSnoc(m, front, e);
      assert m[e.op.key := if e.seen.Some? then e.seen.value else ""] == m || e.op.Read? || e.seen.None?;
    }
  }

  /** Undoing a log once more changes nothing exactly when the old values stand. */
  lemma UndoAgainIsNothing(m: Store, log: seq<Entry>)
    requires WritesOnce(log)
    ensures UndoAll(m, log) == m <==> OldValuesStand(m, log)
  {
    if OldValuesStand(m, log) {
      UndoOfStanding(m, log);
    } else {
      var i :| 0 <= i < |log| && !log[i].op.Read? && log[i].seen.Some? && Lookup(m, log[i].op.key) != log[i].seen;
      UndoPutsBack(m, log, log[i]);
    }
  }

  ghost predicate LogsWriteOnce(s: Db) {
    forall t :: t in s.trans ==> WritesOnce(s.trans[t].log)
  }

  lemma LogsWriteOnceStep(s: Db, m: Store, e: Event)
    requires Inv(s, m) && Enabled(s, e) && LogsWriteOnce(s)
    ensures LogsWriteOnce(Next(s, e))
  {
    var s' := Next(s, e);
    StepKeepsInv(s, m, e);
    forall t | t in s'.trans
      ensures WritesOnce(s'.trans[t].log)
    {
      if Live(s', t) {
        forall k ensures CountWrites(OpsOf(s'.trans[t].log), k) <= 1 { LiveLogWrites(s', t, k); }
      } else {
        assert t in s.trans && s'.trans[t].log == s.trans[t].log;
      }
    }
  }

  lemma {:induction false} RunWritesOnce(s: Db, m: Store, es: seq<Event>)
    requires Inv(s, m) && Legal(s, es) && LogsWriteOnce(s)
    ensures LogsWriteOnce(Run(s, es))
    decreases |es|
  {
    if es != [] {
      LogsWriteOnceStep(s, m, es[0]);
      StepKeepsInv(s, m, es[0]);
      RunWritesOnce(Next(s, es[0]), m, es[1..]);
    }
  }

  /** Rolling the same transaction back twice, as the DEADLOCK path followed by `Abort` does
      (ydb/ydb_sched_test.cpp:94-96): in every reachable state the second rollback leaves the
      locks, the wait graph and all transactions alone, and it changes nothing at all if and
      only if every value that the transaction had overwritten or deleted still stands. */
  lemma SecondRollback(s: Db, m: Store, t: Trans)
    requires Reachable(s, m) && t in s.trans && s.trans[t].phase == Aborted
    ensures RolledBackAgain(s, t) == s.(store := UndoAll(s.store, s.trans[t].log))
    ensures RolledBackAgain(s, t) == s <==> OldValuesStand(s.store, s.trans[t].log)
  {
    ReachableInv(s, m);
    CommitAfterRollbackIsNoop(s, m, t);
    assert Released(s, t) == s;
    var es :| Legal(Init(m), es) && Run(Init(m), es) == s;
    InitInv(m);
    RunWritesOnce(Init(m), m, es);
    UndoAgainIsNothing(s.store, s.trans[t].log);
  }

  /** A waiting request of `t` for a key write-locked by `h`. */
  lemma WaitFor(s: Db, m: Store, t: Trans, op: Op, h: Trans, depth: nat) returns (s': Db)
    requires Reachable(s, m) && t in s.trans && s.trans[t].phase == Idle && t != h
    requires op.key in s.locks && s.locks[op.key] == LockInfo(WriteLock, [h])
    requires IsBlockedBy(s.tree.blockedBy, h, t, depth) == Some(false)
    ensures Reachable(s', m)
    ensures s' == s.(tree := Added(s.tree, h, t), trans := s.trans[t := s.trans[t].(phase := Waiting(op))])
  {
    var e := Acquire(t, op);
    IsBlockedByDecidesMeets(s.tree.blockedBy, h, t, depth);
    assert AllReturn(s.tree, [h], t);
    ReachableStep(s, m, e);
    s' := Next(s, e);
    assert AddedAll(s.tree, [h], t) == AddedAll(Added(s.tree, h, t), [], t);
  }

  /** `t` wrote `k`, which had a value, and `u` wrote `j`, which had none; then `u` asked for `k`
      and waits. */
  lemma CrossedWriters(m: Store, t: Trans, e: Entry, u: Trans, j: string, f: Entry) returns (s: Db)
    requires e.op.Write? && f.op.Write? && e.op.key == f.op.key != j && t != u
    requires f.seen.Some? && m == map[e.op.key := f.seen.value] && e.seen == f.seen
    ensures Reachable(s, m) && s.history == []
    ensures s.store == map[e.op.key := e.op.value, j := f.op.value]
    ensures s.locks == map[e.op.key := LockInfo(WriteLock, [t]), j := LockInfo(WriteLock, [u])]
    ensures s.tree == Added(Tree(map[], map[]), t, u)
    ensures s.trans == map[t := TransState([e], Idle), u := TransState([Entry(Write(j, f.op.value), None)], Waiting(f.op))]
  {
    ReachableInit(m);
    s := OpenAndWrite(Init(m), m, t, e.op.key, e.op.value);
    s := OpenAndWrite(s, m, u, j, f.op.value);
    UnblockedReturns(s.tree.blockedBy, t, u);
    s := WaitFor(s, m, u, f.op, t, 1);
  }

  /** A request of `t` for a key write-locked by `h`, who waits for `t`, is refused for good. */
  lemma RefusedFor(s: Db, m: Store, t: Trans, op: Op, h: Trans) returns (s': Db)
    requires Reachable(s, m) && t in s.trans && s.trans[t].phase == Idle && t != h
    requires op.key in s.locks && s.locks[op.key] == LockInfo(WriteLock, [h])
    requires Successors(s.tree.blockedBy, h) == [t]
    ensures Reachable(s', m)
    ensures s' == s.(trans := s.trans[t := s.trans[t].(phase := Doomed)])
  {
    AdjacentMeets(s.tree.blockedBy, h, t);
    assert IsBlockedBy(s.tree.blockedBy, h, t, 1) == Some(true);
    assert AllReturn(s.tree, [h], t);
    ReachableStep(s, m, Acquire(t, op));
    s' := Next(s, Acquire(t, op));
  }

  /** A refused transaction that had written one key is rolled back. */
  lemma RefusedRollsBack(s: Db, t: Trans, e: Entry)
    requires t in s.trans && s.trans[t] == TransState([e], Doomed)
    requires e.op.key in s.locks && s.locks[e.op.key].holders == [t]
    ensures Next(s, Rollback(t)).store == Undo(s.store, e)
    ensures Next(s, Rollback(t)).locks == s.locks - {e.op.key}
    ensures Next(s, Rollback(t)).trans == s.trans[t := TransState([e], Aborted)]
    ensures Next(s, Rollback(t)).history == s.history + [Dropped([e])]
  {
    LogOfOne(s.store, e);
    assert OpsOf([e]) == [e.op];
    assert UnlockedAll(s.locks, t, [e.op]) == Unlocked(UnlockedAll(s.locks, t, []), t, e.op.key);
    assert RemoveFirst([t], t) == [];
  }

  lemma CommitEnds(s: Db, t: Trans)
    requires t in s.trans && s.trans[t].phase == Idle
    ensures Next(s, Commit(t)).store == s.store
    ensures Next(s, Commit(t)).trans == s.trans[t := TransState(s.trans[t].log, Committed)]
    ensures Next(s, Commit(t)).history == s.history + [Kept(s.trans[t].log)]
  {
  }

  /** `t` asks for `j` and would deadlock. */
  lemma DoomedRequest(m: Store, t: Trans, e: Entry, u: Trans, j: string, f: Entry) returns (d: Db)
    requires e.op.Write? && f.op.Write? && e.op.key == f.op.key != j && t != u
    requires f.seen.Some? && m == map[e.op.key := f.seen.value] && e.seen == f.seen
    ensures Reachable(d, m) && d.history == []
    ensures d.store == map[e.op.key := e.op.value, j := f.op.value]
    ensures d.locks == map[e.op.key := LockInfo(WriteLock, [t]), j := LockInfo(WriteLock, [u])]
    ensures d.trans == map[t := TransState([e], Doomed), u := TransState([Entry(Write(j, f.op.value), None)], Waiting(f.op))]
  {
    var c := CrossedWriters(m, t, e, u, j, f);
    d := RefusedFor(c, m, t, Delete(j), u);
  }

  /** It is rolled back. */
  lemma DoomedRolledBack(m: Store, t: Trans, e: Entry, u: Trans, j: string, f: Entry) returns (d: Db, s: Db)
    requires e.op.Write? && f.op.Write? && e.op.key == f.op.key != j && t != u
    requires f.seen.Some? && m == map[e.op.key := f.seen.value] && e.seen == f.seen
    ensures Reachable(d, m) && t in d.trans && d.trans[t].phase == Doomed
    ensures Enabled(d, Rollback(t)) && s == Next(d, Rollback(t))
    ensures e.op.key !in s.locks && Lookup(s.store, e.op.key) == f.seen
    ensures s.trans == map[t := TransState([e], Aborted), u := TransState([Entry(Write(j, f.op.value), None)], Waiting(f.op))]
    ensures s.history == [Dropped([e])]
  {
    d := DoomedRequest(m, t, e, u, j, f);
    s := Next(d, Rollback(t));
    RefusedRollsBack(d, t, e);
  }

  lemma LegalOne(s: Db, e: Event)
    requires Enabled(s, e)
    ensures Legal(s, [e]) && Run(s, [e]) == Next(s, e)
  {
    assert Legal(Next(s, e), [e][1..]) && Run(Next(s, e), [e][1..]) == Next(s, e);
  }

  /** A waiting write of a key that is free by now goes through. */
  lemma WaiterWrites(s: Db, t: Trans, k: string, v: string) returns (es: seq<Event>, s': Db)
    requires t in s.trans && s.trans[t].phase == Waiting(Write(k, v)) && k !in s.locks
    ensures Legal(s, es) && s' == Run(s, es)
    ensures s' == s.(store := s.store[k := v], locks := s.locks[k := LockInfo(WriteLock, [t])],
                     trans := s.trans[t := TransState(s.trans[t].log + [Entry(Write(k, v), Lookup(s.store, k))], Idle)])
  {
    var op := Write(k, v);
    LegalOne(s, Acquire(t, op));
    var s1 := Next(s, Acquire(t, op));
    RunSplit(s, [Acquire(t, op)], Fetch(t));
    var s2 := Next(s1, Fetch(t));
    es := [Acquire(t, op)] + [Fetch(t)];
    RunSplit(s, es, Put(t));
    es := es + [Put(t)];
    s' := Next(s2, Put(t));
    assert s'.trans == s.trans[t := TransState(s.trans[t].log + [Entry(op, Lookup(s.store, k))], Idle)];
  }

  lemma {:induction false} ReachableRun(s: Db, m: Store, es: seq<Event>)
    requires Reachable(s, m) && Legal(s, es)
    ensures Reachable(Run(s, es), m)
    decreases |es|
  {
    if es != [] {
      ReachableStep(s, m, es[0]);
      ReachableRun(Next(s, es[0]), m, es[1..]);
    }
  }

  /** `t` is rolled back because it would deadlock; then `u`, which waited for it, writes the
      key and commits. */
  lemma OverwrittenAfterDeadlock(m: Store, t: Trans, e: Entry, u: Trans, j: string, f: Entry)
    returns (d: Db, between: seq<Event>, s: Db)
    requires e.op.Write? && f.op.Write? && e.op.key == f.op.key != j && t != u
    requires f.seen.Some? && m == map[e.op.key := f.seen.value] && e.seen == f.seen
    ensures Reachable(d, m) && t in d.trans && d.trans[t].phase == Doomed
    ensures |between| > 0 && between[0] == Rollback(t) && Legal(d, between) && s == Run(d, between)
    ensures |s.history| == 2 && s.history[0] == Dropped([e]) && s.history[1].Kept? && f in s.history[1].log
    ensures t in s.trans && s.trans[t] == TransState([e], Aborted)
    ensures Lookup(s.store, f.op.key) == Some(f.op.value)
  {
    var s1, s2, es;
    d, s1 := DoomedRolledBack(m, t, e, u, j, f);
    es, s2 := WaiterWrites(s1, u, f.op.key, f.op.value);
    CommitEnds(s2, u);
    s := Next(s2, Commit(u));
    FirstAndLast(d, Rollback(t), es, Commit(u));
    between := [Rollback(t)] + (es + [Commit(u)]);
  }

  lemma FirstAndLast(s: Db, first: Event, es: seq<Event>, last: Event)
    requires Enabled(s, first) && Legal(Next(s, first), es) && Enabled(Run(Next(s, first), es), last)
    ensures var all := [first] + (es + [last]);
            Legal(s, all) && Run(s, all) == Next(Run(Next(s, first), es), last)
  {
    RunSplit(Next(s, first), es, last);
    assert ([first] + (es + [last]))[1..] == es + [last];
  }

  lemma AgainAfter(d: Db, m: Store, between: seq<Event>, s: Db, t: Trans, e: Entry)
    requires Reachable(d, m) && Legal(d, between) && s == Run(d, between)
    requires t in s.trans && s.trans[t] == TransState([e], Aborted)
    ensures Reachable(s, m) && RolledBackAgain(s, t) == s.(store := Undo(s.store, e))
  {
    ReachableRun(d, m, between);
    SecondRollback(s, m, t);
    LogOfOne(s.store, e);
  }

  /** A reachable state in which it is not harmless: a transaction is refused as a deadlock and
      rolled back, the one that waited for it overwrites the key and commits, and the second
      rollback of the first wipes that out. */
  lemma SecondRollbackLosesUpdate() returns (d: Db, between: seq<Event>, s: Db)
    ensures Reachable(d, map["k" := "old"]) && 1 in d.trans && d.trans[1].phase == Doomed
    ensures Legal(d, between) && s == Run(d, between) && |between| > 0 && between[0] == Rollback(1)
    ensures Reachable(s, map["k" := "old"]) && Lookup(s.store, "k") == Some("t2")
    ensures |s.history| == 2 && s.history[1].Kept? && Entry(Write("k", "t2"), Some("old")) in s.history[1].log
    ensures 1 in s.trans && s.trans[1].phase == Aborted
    ensures RolledBackAgain(s, 1) == s.(store := s.store["k" := "old"])
  {
    var m: Store := map["k" := "old"];
    var e, f := Entry(Write("k", "t1"), Some("old")), Entry(Write("k", "t2"), Some("old"));
    d, between, s := OverwrittenAfterDeadlock(m, 1, e, 2, "j", f);
    AgainAfter(d, m, between, s, 1, e);
  }

  /** Transactions 1, 2 and 3 have written "a", "b" and "c". */
  lemma ThreeWriters() returns (s: Db)
    ensures Reachable(s, map[]) && s.tree == Tree(map[], map[])
    ensures s.trans.Keys == {1, 2, 3} && forall t :: t in s.trans ==> s.trans[t].phase == Idle
    ensures s.locks == map["a" := LockInfo(WriteLock, [1]), "b" := LockInfo(WriteLock, [2]), "c" := LockInfo(WriteLock, [3])]
  {
    ReachableInit(map[]);
    s := OpenAndWrite(Init(map[]), map[], 1, "a", "x");
    s := OpenAndWrite(s, map[], 2, "b", "x");
    s := OpenAndWrite(s, map[], 3, "c", "x");
  }

  lemma FirstBlocker(g: Graph, x: Trans, y: Trans)
    requires x !in g
    ensures Pushed(g, x, y) == g[x := [y]]
  {
    assert Successors(g, x) + [y] == [y];
  }

  lemma UnblockedReturns(g: Graph, x: Trans, y: Trans)
    requires x !in g
    ensures IsBlockedBy(g, x, y, 1) == Some(false)
  {
    assert IsBlockedBy(g, x, y, 1) == ScanBlockers(g, [], y, 0);
  }

  /** Three transactions can wait for each other in a ring: the detector lets the last one in,
      although its blocker already waits, two steps away, for it.  From then on, asking whether
      it may wait again never returns. */
  lemma UndetectedDeadlock() returns (s: Db)
    ensures Reachable(s, map[])
    ensures s.tree.blockedBy == RING
    ensures forall t :: t == 1 || t == 2 || t == 3 ==> t in s.trans && s.trans[t].phase.Waiting?
    ensures !Returns(s.tree.blockedBy, 1, 3)
  {
    s := ThreeWriters();
    UnblockedReturns(s.tree.blockedBy, 2, 1);
    FirstBlocker(s.tree.blockedBy, 1, 2);
    s := WaitFor(s, map[], 1, Delete("b"), 2, 1);
    UnblockedReturns(s.tree.blockedBy, 3, 2);
    FirstBlocker(s.tree.blockedBy, 2, 3);
    s := WaitFor(s, map[], 2, Delete("c"), 3, 1);
    assert s.tree.blockedBy == map[1 := [2], 2 := [3]];
    RingOfThreeIsMissed();
    FirstBlocker(s.tree.blockedBy, 3, 1);
    s := WaitFor(s, map[], 3, Delete("a"), 1, 2);
    assert s.tree.blockedBy == RING;
    forall depth: nat
      ensures IsBlockedBy(RING, 1, 3, depth) == None
    {
      RingNeverReturns(depth);
    }
  }
}
