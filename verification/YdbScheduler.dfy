/** `Ydb_Scheduler` as an object over its lock table and deadlock tree; each method is one
    step of the step system in `YdbSched`. */
module YdbScheduler {
  import opened YdbOp
  import opened YdbLock
  import opened YdbDeadlock
  import opened YdbSched

  /** How one pass of the loop in `AddOp` ends. */
  datatype Pass = LockGranted | MustWait | WouldDeadlock

  /** `depth` is a stack on which every query of the pass returns. */
  ghost predicate AllReturnWithin(tree: Tree, holders: seq<Trans>, t: Trans, depth: nat)
    decreases |holders|
  {
    holders == [] ||
    (IsBlockedBy(tree.blockedBy, holders[0], t, depth).Some? &&
     (Meets(tree.blockedBy, holders[0], t) || AllReturnWithin(Added(tree, holders[0], t), holders[1..], t, depth)))
  }

  lemma {:induction false} WithinReturns(tree: Tree, holders: seq<Trans>, t: Trans, depth: nat)
    requires AllReturnWithin(tree, holders, t, depth)
    ensures AllReturn(tree, holders, t)
    decreases |holders|
  {
    if holders != [] && !Meets(tree.blockedBy, holders[0], t) {
      WithinReturns(Added(tree, holders[0], t), holders[1..], t, depth);
    }
  }

  class Scheduler {
    var store: Store
    var trans: map<Trans, TransState>
    const lockTable: LockTable
    const deadlockTree: DeadlockTree
    ghost var history: seq<Outcome>

    ghost function View(): Db
      reads this, lockTable, deadlockTree
    {
      Db(store, lockTable.lockMap, deadlockTree.View(), trans, history)
    }

    constructor (m: Store)
      ensures View() == Init(m)
      ensures fresh(lockTable) && fresh(deadlockTree)
    {
      store, trans, history := m, map[], [];
      lockTable := new LockTable();
      deadlockTree := new DeadlockTree();
    }

    method OpenTransaction(t: Trans)
      requires t !in trans
      modifies this
      ensures View() == Next(old(View()), Open(t))
    {
      trans := trans[t := TransState([], Idle)];
    }

    /** One pass of the loop in `AddOp`, under the mutex (ydb/ydb_sched.cpp:31-53). */
    method TryAcquire(t: Trans, op: Op, depth: nat) returns (pass: Pass)
      requires t in trans && (trans[t].phase == Idle || trans[t].phase == Waiting(op))
      requires !Locked(lockTable.lockMap, t, op).0 ==>
                 AllReturnWithin(deadlockTree.View(), lockTable.lockMap[op.key].holders, t, depth)
      modifies this, lockTable, deadlockTree
      ensures old(Enabled(View(), Acquire(t, op)))
      ensures View() == Next(old(View()), Acquire(t, op))
      ensures pass.LockGranted? <==> trans[t].phase == Granted(op)
      ensures pass.MustWait? <==> trans[t].phase == Waiting(op)
      ensures pass.WouldDeadlock? <==> trans[t].phase == Doomed
    {
      var granted := lockTable.Lock(t, op);
      if granted {
        trans := trans[t := trans[t].(phase := Granted(op))];
        return LockGranted;
      }
      WithinReturns(deadlockTree.View(), lockTable.lockMap[op.key].holders, t, depth);
      var holders := lockTable.GetLockHolders(op.key);
      var ok := AddDependencies(holders.value, t, depth);
      trans := trans[t := trans[t].(phase := if ok then Waiting(op) else Doomed)];
      return if ok then MustWait else WouldDeadlock;
    }

    /** The loop over the holders (ydb/ydb_sched.cpp:42-50). */
    method AddDependencies(list: seq<Trans>, t: Trans, depth: nat) returns (ok: bool)
      requires AllReturnWithin(deadlockTree.View(), list, t, depth)
      modifies deadlockTree
      ensures (ok, deadlockTree.View()) == AddedAll(old(deadlockTree.View()), list, t)
    {
      var i := 0;
      ok := true;
      while i < |list| && ok
        invariant 0 <= i <= |list|
        invariant ok ==> AllReturnWithin(deadlockTree.View(), list[i..], t, depth)
        invariant ok ==> AddedAll(old(deadlockTree.View()), list, t) == AddedAll(deadlockTree.View(), list[i..], t)
        invariant !ok ==> AddedAll(old(deadlockTree.View()), list, t) == (false, deadlockTree.View())
      {
        assert list[i..][1..] == list[i + 1..];
        ok := deadlockTree.AddDependency(list[i], t, depth);
        i := i + 1;
      }
    }

    /** The first map access of `Execute`: for a read, or the deletion of a missing key, the
        only one. */
    method ExecuteGet(t: Trans)
      requires t in trans && trans[t].phase.Granted?
      modifies this
      ensures View() == Next(old(View()), Fetch(t))
    {
      var op := trans[t].phase.op;
      var seen := Lookup(store, op.key);
      if op.Read? || (op.Delete? && seen.None?) {
        trans := trans[t := TransState(trans[t].log + [Entry(op, seen)], Idle)];
      } else {
        trans := trans[t := trans[t].(phase := Fetched(op, seen))];
      }
    }

    /** The second map access of `Execute`, `Put` or `Del`. */
    method ExecutePut(t: Trans)
      requires t in trans && trans[t].phase.Fetched?
      modifies this
      ensures View() == Next(old(View()), Put(t))
    {
      var Fetched(op, seen) := trans[t].phase;
      store := match op
        case Read(_) => store
        case Write(k, v) => store[k := v]
        case Delete(k) => store - {k};
      trans := trans[t := TransState(trans[t].log + [Entry(op, seen)], Idle)];
    }

    method Commit(t: Trans)
      requires t in trans && (trans[t].phase == Idle || trans[t].phase == Aborted)
      requires GraphInv(View())
      modifies this, lockTable, deadlockTree
      ensures View() == Next(old(View()), Event.Commit(t))
    {
      var log := trans[t].log;
      var i := 0;
      while i < |log|
        invariant 0 <= i <= |log|
        invariant lockTable.lockMap == UnlockedAll(old(lockTable.lockMap), t, OpsOf(log[..i]))
        invariant unchanged(this) && unchanged(deadlockTree)
      {
        NextEntry(map[], log, i);
        var released := lockTable.Unlock(t, log[i].op.key);
        i := i + 1;
      }
      assert log[..i] == log;
      deadlockTree.Remove(t);
      if trans[t].phase == Idle {
        history := history + [Kept(log)];
        trans := trans[t := trans[t].(phase := Committed)];
      }
    }

    /** Also for a transaction that has been rolled back before. */
    method Rollback(t: Trans)
      requires t in trans && (trans[t].phase == Idle || trans[t].phase == Doomed || trans[t].phase == Aborted)
      requires GraphInv(View())
      modifies this, lockTable, deadlockTree
      ensures View() == if old(trans[t].phase) == Aborted then RolledBackAgain(old(View()), t)
                        else Next(old(View()), Event.Rollback(t))
    {
      var log := trans[t].log;
      UndoAndUnlock(t, log);
      deadlockTree.Remove(t);
      if trans[t].phase != Aborted {
        history := history + [Dropped(log)];
        trans := trans[t := trans[t].(phase := Aborted)];
      }
    }

    /** The loop over the operations (ydb/ydb_sched.cpp:82-88). */
    method UndoAndUnlock(t: Trans, log: seq<Entry>)
      modifies this`store, lockTable
      ensures store == UndoAll(old(store), log)
      ensures lockTable.lockMap == UnlockedAll(old(lockTable.lockMap), t, OpsOf(log))
    {
      var i := 0;
      LogOfNothing(store);
      while i < |log|
        invariant 0 <= i <= |log|
        invariant lockTable.lockMap == UnlockedAll(old(lockTable.lockMap), t, OpsOf(log[..i]))
        invariant store == UndoAll(old(store), log[..i])
      {
        NextEntry(old(store), log, i);
        UndoOne(log[i]);
        var released := lockTable.Unlock(t, log[i].op.key);
        i := i + 1;
      }
      assert log[..i] == log;
    }

    /** `Rollback` of one operation (ydb/ydb_op.cpp:35-39, 55-59). */
    method UndoOne(e: Entry)
      modifies this`store
      ensures store == Undo(old(store), e)
    {
      if !e.op.Read? && e.seen.Some? {
        store := store[e.op.key := e.seen.value];
      }
    }
  }

  lemma NextEntry(m: Store, log: seq<Entry>, i: nat)
    requires i < |log|
    ensures UndoAll(m, log[..i + 1]) == Undo(UndoAll(m, log[..i]), log[i])
    ensures OpsOf(log[..i + 1]) == OpsOf(log[..i]) + [log[i].op]
    ensures OpsOf(log[..i + 1])[..i] == OpsOf(log[..i])
  {
    assert log[..i + 1] == log[..i] + [log[i]];
    LogSnoc(m, log[..i], log[i]);
    OpsOfSnoc(log[..i], log[i]);
  }
}
