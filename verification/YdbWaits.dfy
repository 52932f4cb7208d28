/** What a recorded wait means, and what a lock request comes to, in every reachable state. */
module YdbWaits {
  import opened YdbOp
  import opened YdbLock
  import opened YdbDeadlock
  import opened YdbSched
  import opened YdbRuns
  import opened YdbTheorems

  /** While `h` holds what it holds, nobody else is granted `op`. */
  predicate Obstructs(locks: Locks, op: Op, h: Trans) {
    if op.Read? then WriteHeld(locks, op.key, h) else Mult(locks, op.key, h) > 0
  }

  /** A recorded wait of `t` for `h` has a reason: `t` still waits for something that `h` holds,
      or has given up. */
  predicate Reason(s: Db, t: Trans, h: Trans) {
    t in s.trans &&
    match s.trans[t].phase
    case Waiting(op) => Obstructs(s.locks, op, h)
    case Doomed => true
    case Aborted => true
    case _ => false
  }

  ghost predicate WaitsHaveReasons(s: Db) {
    forall t, h :: t != h && Edges(s.tree.blockedBy, t, h) > 0 ==> Reason(s, t, h)
  }

  lemma ObstructedIsRefused(locks: Locks, t: Trans, op: Op, h: Trans)
    requires Sane(locks) && h != t && Obstructs(locks, op, h)
    ensures !Locked(locks, t, op).0
  {
    if op.Read? {
      ExclusiveMult(locks, op.key, h, t);
    } else if Locked(locks, t, op).0 {
      SoleHolder(locks, t, op.key);
    }
  }

  lemma HoldersObstruct(locks: Locks, t: Trans, op: Op, h: Trans)
    requires Sane(locks) && !Locked(locks, t, op).0 && op.key in locks && h in locks[op.key].holders
    ensures Obstructs(locks, op, h)
  {
    assert h in multiset(locks[op.key].holders);
  }

  lemma GrantKeepsObstacle(locks: Locks, t: Trans, op: Op, op': Op, h: Trans)
    requires Sane(locks) && Locked(locks, t, op).0 && Obstructs(locks, op', h)
    ensures Obstructs(Locked(locks, t, op).1, op', h)
  {
    GrantEffect(locks, t, op, op'.key, h);
  }

  lemma {:induction false} AddedAllEdges(tree: Tree, holders: seq<Trans>, t: Trans, x: Trans, h: Trans)
    requires Edges(AddedAll(tree, holders, t).1.blockedBy, x, h) > 0
    ensures Edges(tree.blockedBy, x, h) > 0 || (x == t && h in holders)
    decreases |holders|
  {
    if holders != [] && !Meets(tree.blockedBy, holders[0], t) {
      AddedAllEdges(Added(tree, holders[0], t), holders[1..], t, x, h);
      PushedEdges(tree.blockedBy, t, holders[0], x, h);
    }
  }

  /** What the loop over the holders records: a wait for each of them, as often as it holds, up to
      the first one that meets the requester; and it refuses exactly when there is such a one. */
  lemma {:induction false} AddedAllRecords(tree: Tree, holders: seq<Trans>, t: Trans) returns (k: nat)
    ensures var (ok, tree') := AddedAll(tree, holders, t);
            && k <= |holders|
            && (ok <==> k == |holders|)
            && (!ok ==> Meets(tree'.blockedBy, holders[k], t))
            && forall x, h :: Edges(tree'.blockedBy, x, h)
                 == Edges(tree.blockedBy, x, h) + if x == t then multiset(holders[..k])[h] else 0
    decreases |holders|
  {
    k := 0;
    if holders != [] && !Meets(tree.blockedBy, holders[0], t) {
      var j := AddedAllRecords(Added(tree, holders[0], t), holders[1..], t);
      k := j + 1;
      FirstOfMany(holders, j);
      forall x, h
        ensures Edges(Added(tree, holders[0], t).blockedBy, x, h)
             == Edges(tree.blockedBy, x, h) + if x == t && h == holders[0] then 1 else 0
      {
        PushedEdges(tree.blockedBy, t, holders[0], x, h);
      }
    }
  }

  lemma FirstOfMany(list: seq<Trans>, j: nat)
    requires j < |list|
    ensures list[..j + 1] == [list[0]] + list[1..][..j]
    ensures forall h :: multiset(list[..j + 1])[h] == multiset(list[1..][..j])[h] + if h == list[0] then 1 else 0
  {
    assert list[..j + 1] == [list[0]] + list[1..][..j];
  }

  /** A refused request that is left waiting is recorded as blocked by every holder of its key, as
      often as each holds, and nothing else is recorded. */
  lemma RefusedWaitIsRecorded(s: Db, t: Trans, op: Op, x: Trans, h: Trans)
    requires Enabled(s, Acquire(t, op)) && !Locked(s.locks, t, op).0
    requires Next(s, Acquire(t, op)).trans[t].phase == Waiting(op)
    ensures Edges(Next(s, Acquire(t, op)).tree.blockedBy, x, h)
         == Edges(s.tree.blockedBy, x, h) + if x == t then multiset(s.locks[op.key].holders)[h] else 0
  {
    var holders := s.locks[op.key].holders;
    var k := AddedAllRecords(s.tree, holders, t);
    assert holders[..|holders|] == holders;
  }

  /** So no two transactions get to wait directly for each other: whoever is let wait is recorded as
      blocked by each holder of the key, and no other holder is recorded as blocked by it. */
  lemma NobodyWaitsForAWaiter(s: Db, m: Store, t: Trans, op: Op, h: Trans)
    requires Reachable(s, m) && Enabled(s, Acquire(t, op)) && !Locked(s.locks, t, op).0
    requires Next(s, Acquire(t, op)).trans[t].phase == Waiting(op)
    requires h != t && h in s.locks[op.key].holders
    ensures var g := Next(s, Acquire(t, op)).tree.blockedBy; Edges(g, t, h) > 0 && Edges(g, h, t) == 0
  {
    RefusedWaitIsRecorded(s, t, op, t, h);
    assert h in multiset(s.locks[op.key].holders);
    ReachableStep(s, m, Acquire(t, op));
    WaitGraphBookkeeping(Next(s, Acquire(t, op)), m, t, h);
  }

  lemma GrantKeepsReasons(s: Db, t: Trans, op: Op)
    requires LockInv(s) && WaitsHaveReasons(s) && Enabled(s, Acquire(t, op)) && Locked(s.locks, t, op).0
    ensures WaitsHaveReasons(Next(s, Acquire(t, op)))
  {
    var s' := Next(s, Acquire(t, op));
    forall x, h | x != h && Edges(s'.tree.blockedBy, x, h) > 0
      ensures Reason(s', x, h)
    {
      assert Reason(s, x, h);
      if x == t {
        ObstructedIsRefused(s.locks, t, op, h);
      } else if s.trans[x].phase.Waiting? {
        GrantKeepsObstacle(s.locks, t, op, s.trans[x].phase.op, h);
      }
    }
  }

  lemma RefusalKeepsReasons(s: Db, t: Trans, op: Op)
    requires LockInv(s) && WaitsHaveReasons(s) && Enabled(s, Acquire(t, op)) && !Locked(s.locks, t, op).0
    ensures WaitsHaveReasons(Next(s, Acquire(t, op)))
  {
    var s' := Next(s, Acquire(t, op));
    var holders := s.locks[op.key].holders;
    forall x, h | x != h && Edges(s'.tree.blockedBy, x, h) > 0
      ensures Reason(s', x, h)
    {
      AddedAllEdges(s.tree, holders, t, x, h);
      if Edges(s.tree.blockedBy, x, h) > 0 {
        assert Reason(s, x, h);
      } else {
        HoldersObstruct(s.locks, t, op, h);
      }
    }
  }

  /** The locks of those who go on are as before. */
  lemma EndKeepsReasons(s: Db, s': Db, t: Trans)
    requires LockInv(s) && GraphInv(s) && WaitsHaveReasons(s) && t in s.trans
    requires s'.locks == Released(s, t).locks && s'.tree == Removed(s.tree, t)
    requires s'.trans.Keys == s.trans.Keys && forall u :: u in s.trans && u != t ==> s'.trans[u] == s.trans[u]
    requires !s.trans[t].phase.Waiting?
    requires s.trans[t].phase == Doomed || s.trans[t].phase == Aborted ==> s'.trans[t].phase == Aborted
    ensures WaitsHaveReasons(s')
  {
    RemoveKeepsConsistent(s.tree, t);
    var ops := OpsOf(s.trans[t].log);
    forall x, h | x != h && Edges(s'.tree.blockedBy, x, h) > 0
      ensures Reason(s', x, h)
    {
      assert h != t && Edges(s.tree.blockedBy, x, h) > 0 && Reason(s, x, h);
      if x != t && s.trans[x].phase.Waiting? {
        UnlockAllEffect(s.locks, t, ops, s.trans[x].phase.op.key, h);
      }
    }
  }

  lemma QuietKeepsReasons(s: Db, s': Db)
    requires WaitsHaveReasons(s) && s'.tree == s.tree && s'.locks == s.locks
    requires forall t, h :: Reason(s, t, h) ==> Reason(s', t, h)
    ensures WaitsHaveReasons(s')
  {
  }

  lemma StepKeepsReasons(s: Db, m: Store, e: Event)
    requires Inv(s, m) && WaitsHaveReasons(s) && Enabled(s, e)
    ensures WaitsHaveReasons(Next(s, e))
  {
    match e {
      case Acquire(t, op) =>
        if Locked(s.locks, t, op).0 { GrantKeepsReasons(s, t, op); } else { RefusalKeepsReasons(s, t, op); }
      case Commit(t) => EndKeepsReasons(s, Next(s, e), t);
      case Rollback(t) => EndKeepsReasons(s, Next(s, e), t);
      case Open(t) => QuietKeepsReasons(s, Next(s, e));
      case Fetch(t) => QuietKeepsReasons(s, Next(s, e));
      case Put(t) => QuietKeepsReasons(s, Next(s, e));
    }
  }

  lemma {:induction false} RunKeepsReasons(s: Db, m: Store, es: seq<Event>)
    requires Inv(s, m) && WaitsHaveReasons(s) && Legal(s, es)
    ensures WaitsHaveReasons(Run(s, es))
    decreases |es|
  {
    if es != [] {
      StepKeepsReasons(s, m, es[0]);
      StepKeepsInv(s, m, es[0]);
      RunKeepsReasons(Next(s, es[0]), m, es[1..]);
    }
  }

  lemma ReachableReasons(s: Db, m: Store)
    requires Reachable(s, m)
    ensures Inv(s, m) && WaitsHaveReasons(s)
  {
    ReachableInv(s, m);
    var es :| Legal(Init(m), es) && Run(Init(m), es) == s;
    InitInv(m);
    RunKeepsReasons(Init(m), m, es);
  }

  /** In every reachable state, whoever is recorded as blocked by another transaction is waiting
      for an operation that the other's lock obstructs, or was refused for good; so a
      transaction that is between calls or executing has no blocker but itself. */
  lemma RecordedWaits(s: Db, m: Store, t: Trans, h: Trans)
    requires Reachable(s, m) && t != h && Edges(s.tree.blockedBy, t, h) > 0
    ensures Live(s, h) && Reason(s, t, h)
    ensures s.trans[t].phase.Waiting? ==> !Locked(s.locks, t, s.trans[t].phase.op).0
  {
    ReachableReasons(s, m);
    if s.trans[t].phase.Waiting? {
      ObstructedIsRefused(s.locks, t, s.trans[t].phase.op, h);
    }
  }

  /** What the detector sees for a transaction between calls that does not wait for itself: a
      request is refused for good exactly when a holder is directly recorded as waiting for the
      requester.  Longer rings, of any length, are let in. */
  lemma DetectorSeesDirectWaits(s: Db, m: Store, t: Trans, h: Trans)
    requires Reachable(s, m) && t in s.trans && s.trans[t].phase == Idle && Edges(s.tree.blockedBy, t, t) == 0
    ensures Meets(s.tree.blockedBy, h, t) <==> t in Successors(s.tree.blockedBy, h)
  {
    IdleHasNoBlocker(s, m, t);
    DirectWaitsOnly(s.tree.blockedBy, h, t);
  }

  lemma EdgeIsEntry(g: Graph, x: Trans, y: Trans)
    ensures Edges(g, x, y) > 0 <==> y in Successors(g, x)
  {
    assert y in multiset(Successors(g, x)) <==> y in Successors(g, x);
  }

  lemma IdleHasNoBlocker(s: Db, m: Store, t: Trans)
    requires Reachable(s, m) && t in s.trans && s.trans[t].phase == Idle && Edges(s.tree.blockedBy, t, t) == 0
    ensures Successors(s.tree.blockedBy, t) == []
  {
    ReachableReasons(s, m);
    var list := Successors(s.tree.blockedBy, t);
    if list != [] {
      EdgeIsEntry(s.tree.blockedBy, t, list[0]);
    }
  }

  // ----- Who is granted what ------------------------------------------------

  /** The operations of `t` on the key leave room for another write: none, or a single read. */
  predicate RoomForWrite(ops: seq<Op>, k: string) {
    CountKey(ops, k) == 0 || (CountKey(ops, k) == 1 && CountWrites(ops, k) == 0)
  }

  /** In every reachable state, what was executed so far decides a request: a read is granted exactly
      when nobody else wrote the key, and a write or delete exactly when nobody else has any
      operation on it and the requester has none but a single read. */
  lemma GrantedExactly(s: Db, m: Store, t: Trans, op: Op)
    requires Reachable(s, m)
    ensures Locked(s.locks, t, op).0 <==>
      if op.Read? then forall u :: u != t ==> CountWrites(LiveOps(s, u), op.key) == 0
      else (forall u :: u != t ==> CountKey(LiveOps(s, u), op.key) == 0) && RoomForWrite(LiveOps(s, t), op.key)
  {
    ReachableInv(s, m);
    var k := op.key;
    forall u ensures Accounts(s.locks, u, k, LiveOps(s, u)) { }
    CountWritesAtMostCountKey(LiveOps(s, t), k);
    if k in s.locks {
      var holders := s.locks[k].holders;
      if holders[0] != t { assert Accounts(s.locks, holders[0], k, LiveOps(s, holders[0])); }
      if s.locks[k].kind.WriteLock? {
        ExclusiveMult(s.locks, k, holders[0], holders[0]);
      }
      if forall u :: u != t ==> CountKey(LiveOps(s, u), k) == 0 {
        OnlyHolder(s, k, t);
      }
      forall u | u != t
        ensures Locked(s.locks, t, op).0 && !op.Read? ==> CountKey(LiveOps(s, u), k) == 0
        ensures Locked(s.locks, t, op).0 && op.Read? ==> CountWrites(LiveOps(s, u), k) == 0
      {
        assert Accounts(s.locks, u, k, LiveOps(s, u));
        if Locked(s.locks, t, op).0 && (s.locks[k].kind.WriteLock? || !op.Read?) { SoleHolderMult(s.locks, t, op, u); }
      }
    }
  }

  /** When nobody else has operations on the key, all its holders are one. */
  lemma OnlyHolder(s: Db, k: string, t: Trans)
    requires LockInv(s) && k in s.locks && forall u :: u != t ==> CountKey(LiveOps(s, u), k) == 0
    ensures Mult(s.locks, k, t) == |s.locks[k].holders|
  {
    var holders := s.locks[k].holders;
    forall i | 0 <= i < |holders|
      ensures holders[i] == t
    {
      assert Accounts(s.locks, holders[i], k, LiveOps(s, holders[i]));
      assert holders[i] in multiset(holders);
    }
    AllTheSame(holders, t);
  }

  /** An upgrade, or a read under one's own write lock, is granted to the only holder. */
  lemma SoleHolderMult(locks: Locks, t: Trans, op: Op, u: Trans)
    requires Sane(locks) && op.key in locks && Locked(locks, t, op).0 && u != t
    requires locks[op.key].kind.WriteLock? || !op.Read?
    ensures Mult(locks, op.key, u) == 0
  {
    var holders := locks[op.key].holders;
    assert |holders| == 1 && t in holders;
    assert holders == [t];
  }

  /** When nobody else is live, every read is granted, and a write or delete is granted exactly
      when it is the first operation on its key or follows a single read of it. */
  lemma AloneIsGranted(s: Db, m: Store, t: Trans, op: Op)
    requires Reachable(s, m) && Live(s, t) && forall u :: Live(s, u) ==> u == t
    ensures Locked(s.locks, t, op).0 <==> op.Read? || RoomForWrite(LiveOps(s, t), op.key)
  {
    GrantedExactly(s, m, t, op);
    forall u | u != t
      ensures CountKey(LiveOps(s, u), op.key) == 0 && CountWrites(LiveOps(s, u), op.key) == 0
    {
      assert LiveOps(s, u) == [];
    }
  }

  lemma {:induction false} AllTheSame(holders: seq<Trans>, t: Trans)
    requires forall i :: 0 <= i < |holders| ==> holders[i] == t
    ensures multiset(holders)[t] == |holders|
  {
    if holders != [] {
      AllTheSame(holders[1..], t);
      assert holders == [holders[0]] + holders[1..];
    }
  }

  /** A second write of a key makes the transaction wait for itself. */
  lemma SecondWriteWaitsForItself(s: Db, m: Store, t: Trans, op: Op)
    requires Reachable(s, m) && t in s.trans && s.trans[t].phase == Idle
    requires WriteHeld(s.locks, op.key, t) && !op.Read? && Edges(s.tree.blockedBy, t, t) == 0
    ensures Enabled(s, Acquire(t, op))
    ensures var s' := Next(s, Acquire(t, op));
            s'.trans[t].phase == Waiting(op) && Edges(s'.tree.blockedBy, t, t) == 1
  {
    ReachableInv(s, m);
    ExclusiveMult(s.locks, op.key, t, t);
    DetectorSeesDirectWaits(s, m, t, t);
    var g := s.tree.blockedBy;
    EdgeIsEntry(g, t, t);
    IdleHasNoBlocker(s, m, t);
    UnblockedQuery(g, t, t);
    assert AllReturn(s.tree, [t], t);
    assert AddedAll(s.tree, [t], t) == AddedAll(Added(s.tree, t, t), [], t);
    PushedEdges(g, t, t, t, t);
  }

  /** A query about a transaction that nobody blocks makes one call at most for each entry. */
  lemma UnblockedQuery(g: Graph, x: Trans, y: Trans)
    requires !Meets(g, x, y) && Successors(g, y) == []
    ensures Returns(g, x, y)
  {
    assert !HasWalk(g, y, 1);
    ReturnsIffAWalkEnds(g, x, y);
  }
}
