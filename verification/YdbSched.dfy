/** The transaction scheduler as a step system (ydb/ydb_sched.cpp:26-92).

    One thread drives each transaction.  Each step is what the source does under the
    scheduler's mutex (`Acquire`, `Commit`, `Rollback`) or one access to the map, which
    has its own mutex (`Fetch`, `Put`); steps of different transactions interleave freely. */
module YdbSched {
  import opened Options
  import opened YdbOp
  import opened YdbLock
  import opened YdbDeadlock

  /** Where the thread of a transaction stands: between calls, waiting on the condition
      variable, holding a granted lock, having read the old value, or having been told
      that it would deadlock and not yet rolled back. */
  datatype Phase =
    | Idle
    | Waiting(op: Op)
    | Granted(op: Op)
    | Fetched(op: Op, seen: Option<string>)
    | Doomed
    | Committed
    | Aborted

  datatype TransState = TransState(log: seq<Entry>, phase: Phase)

  /** How a transaction ended, with the operations it had executed. */
  datatype Outcome = Kept(log: seq<Entry>) | Dropped(log: seq<Entry>)

  /** `history` lists the ended transactions in the order in which they ended. */
  datatype Db = Db(store: Store, locks: Locks, tree: Tree, trans: map<Trans, TransState>, history: seq<Outcome>)

  datatype Event =
    | Open(t: Trans)
    | Acquire(t: Trans, op: Op)
    | Fetch(t: Trans)
    | Put(t: Trans)
    | Commit(t: Trans)
    | Rollback(t: Trans)

  function Init(m: Store): Db {
    Db(m, map[], Tree(map[], map[]), map[], [])
  }

  /** One `AddDependency` per holder, stopping at the first refusal. */
  ghost function AddedAll(tree: Tree, holders: seq<Trans>, t: Trans): (bool, Tree)
    decreases |holders|
  {
    if holders == [] then (true, tree)
    else if Meets(tree.blockedBy, holders[0], t) then (false, tree)
    else AddedAll(Added(tree, holders[0], t), holders[1..], t)
  }

  /** Every query made on the way returns. */
  ghost predicate AllReturn(tree: Tree, holders: seq<Trans>, t: Trans)
    decreases |holders|
  {
    holders == [] ||
    (Returns(tree.blockedBy, holders[0], t) &&
     (Meets(tree.blockedBy, holders[0], t) || AllReturn(Added(tree, holders[0], t), holders[1..], t)))
  }

  ghost predicate Enabled(s: Db, e: Event) {
    if e.Open? then e.t !in s.trans
    else
      e.t in s.trans &&
      var phase := s.trans[e.t].phase;
      match e
      case Acquire(t, op) =>
        (phase == Idle || phase == Waiting(op)) &&
        (!Locked(s.locks, t, op).0 ==> AllReturn(s.tree, s.locks[op.key].holders, t))
      case Fetch(t) => phase.Granted?
      case Put(t) => phase.Fetched?
      case Commit(t) => phase == Idle || phase == Aborted
      case Rollback(t) => phase == Idle || phase == Doomed
  }

  function WithPhase(s: Db, t: Trans, phase: Phase): Db
    requires t in s.trans
  {
    s.(trans := s.trans[t := s.trans[t].(phase := phase)])
  }

  function Executed(s: Db, t: Trans, e: Entry): Db
    requires t in s.trans
  {
    s.(trans := s.trans[t := TransState(s.trans[t].log + [e], Idle)])
  }

  ghost function Next(s: Db, e: Event): Db
    requires Enabled(s, e)
  {
    match e
    case Open(t) => s.(trans := s.trans[t := TransState([], Idle)])
    case Acquire(t, op) =>
      var (granted, locks) := Locked(s.locks, t, op);
      if granted then WithPhase(s.(locks := locks), t, Granted(op))
      else
        var (ok, tree) := AddedAll(s.tree, s.locks[op.key].holders, t);
        WithPhase(s.(tree := tree), t, if ok then Waiting(op) else Doomed)
    case Fetch(t) =>
      var op := s.trans[t].phase.op;
      var seen := Lookup(s.store, op.key);
      if op.Read? || (op.Delete? && seen.None?) then Executed(s, t, Entry(op, seen))
      else WithPhase(s, t, Fetched(op, seen))
    case Put(t) =>
      var Fetched(op, seen) := s.trans[t].phase;
      Executed(s.(store := Effect(s.store, op)), t, Entry(op, seen))
    case Commit(t) =>
      var s' := Released(s, t);
      // a second Commit, after a rollback, ends nothing
      if s.trans[t].phase == Aborted then s'
      else WithPhase(s'.(history := s.history + [Kept(s.trans[t].log)]), t, Committed)
    case Rollback(t) =>
      var log := s.trans[t].log;
      var s' := Released(s.(store := UndoAll(s.store, log)), t);
      WithPhase(s'.(history := s.history + [Dropped(log)]), t, Aborted)
  }

  /** What `Rollback` does to a transaction that was rolled back before: everything but ending
      it.  No protocol step does this; ydb/ydb_sched_test.cpp:94-96 does. */
  function RolledBackAgain(s: Db, t: Trans): Db
    requires t in s.trans
  {
    Released(s.(store := UndoAll(s.store, s.trans[t].log)), t)
  }

  /** What `Commit` and `Rollback` share: one `Unlock` per operation, then `Remove`. */
  function Released(s: Db, t: Trans): Db
    requires t in s.trans
  {
    s.(locks := UnlockedAll(s.locks, t, OpsOf(s.trans[t].log)), tree := Removed(s.tree, t))
  }

  predicate Live(s: Db, t: Trans) {
    t in s.trans && !s.trans[t].phase.Committed? && !s.trans[t].phase.Aborted?
  }

  function LiveLog(s: Db, t: Trans): seq<Entry> {
    if Live(s, t) then s.trans[t].log else []
  }

  /** The operations a live transaction was granted: executed ones and the one in hand. */
  function LiveOps(s: Db, t: Trans): seq<Op> {
    if !Live(s, t) then []
    else
      OpsOf(s.trans[t].log) +
      match s.trans[t].phase
      case Granted(op) => [op]
      case Fetched(op, _) => [op]
      case _ => []
  }

  // ----- Locks --------------------------------------------------------------

  ghost predicate LockInv(s: Db) {
    Sane(s.locks) && forall t, k :: Accounts(s.locks, t, k, LiveOps(s, t))
  }

  lemma ReleaseKeepsLockInv(s: Db, s': Db, t: Trans)
    requires LockInv(s) && t in s.trans
    requires LiveOps(s, t) == OpsOf(s.trans[t].log) || LiveOps(s, t) == []
    requires s'.locks == Released(s, t).locks
    requires LiveOps(s', t) == [] && forall u :: u != t ==> LiveOps(s', u) == LiveOps(s, u)
    ensures LockInv(s')
    ensures forall k :: Mult(s'.locks, k, t) == 0
    ensures forall k, u :: u != t ==> (WriteHeld(s'.locks, k, u) <==> WriteHeld(s.locks, k, u))
  {
    var ops := OpsOf(s.trans[t].log);
    UnlockAllEffect(s.locks, t, ops, "", t);
    forall u, k
      ensures Accounts(s'.locks, u, k, LiveOps(s', u))
      ensures Mult(s'.locks, k, t) == 0
      ensures u != t ==> (WriteHeld(s'.locks, k, u) <==> WriteHeld(s.locks, k, u))
    {
      assert Accounts(s.locks, t, k, LiveOps(s, t));
      assert Accounts(s.locks, u, k, LiveOps(s, u));
      UnlockAllEffect(s.locks, t, ops, k, u);
    }
  }

  lemma GrantKeepsLockInv(s: Db, t: Trans, op: Op)
    requires LockInv(s) && Live(s, t) && (s.trans[t].phase.Idle? || s.trans[t].phase.Waiting?)
    requires Locked(s.locks, t, op).0
    ensures LockInv(WithPhase(s.(locks := Locked(s.locks, t, op).1), t, Granted(op)))
  {
    var s' := WithPhase(s.(locks := Locked(s.locks, t, op).1), t, Granted(op));
    GrantEffect(s.locks, t, op, op.key, t);
    assert LiveOps(s', t) == LiveOps(s, t) + [op];
    forall u, k
      ensures Accounts(s'.locks, u, k, LiveOps(s', u))
    {
      assert Accounts(s.locks, u, k, LiveOps(s, u));
      assert u != t ==> LiveOps(s', u) == LiveOps(s, u);
      GrantKeepsAccounts(s.locks, t, op, u, k, LiveOps(s, u));
    }
  }

  lemma LockInvStep(s: Db, e: Event)
    requires LockInv(s) && Enabled(s, e)
    ensures LockInv(Next(s, e))
  {
    match e {
      case Acquire(t, op) => AcquireKeepsLockInv(s, t, op);
      case Commit(t) => ReleaseKeepsLockInv(s, Next(s, e), t);
      case Rollback(t) => ReleaseKeepsLockInv(s, Next(s, e), t);
      case Open(t) => SameLiveOps(s, Next(s, e));
      case Fetch(t) => FetchKeepsLockInv(s, t);
      case Put(t) => PutKeepsLockInv(s, t);
    }
  }

  lemma AcquireKeepsLockInv(s: Db, t: Trans, op: Op)
    requires LockInv(s) && Enabled(s, Acquire(t, op))
    ensures LockInv(Next(s, Acquire(t, op)))
  {
    if Locked(s.locks, t, op).0 {
      GrantKeepsLockInv(s, t, op);
    } else {
      SameLiveOps(s, Next(s, Acquire(t, op)));
    }
  }

  lemma FetchKeepsLockInv(s: Db, t: Trans)
    requires LockInv(s) && Enabled(s, Fetch(t))
    ensures LockInv(Next(s, Fetch(t)))
  {
    var op := s.trans[t].phase.op;
    OpsOfSnoc(s.trans[t].log, Entry(op, Lookup(s.store, op.key)));
    SameLiveOps(s, Next(s, Fetch(t)));
  }

  lemma PutKeepsLockInv(s: Db, t: Trans)
    requires LockInv(s) && Enabled(s, Put(t))
    ensures LockInv(Next(s, Put(t)))
  {
    OpsOfSnoc(s.trans[t].log, Entry(s.trans[t].phase.op, s.trans[t].phase.seen));
    SameLiveOps(s, Next(s, Put(t)));
  }

  lemma SameLiveOps(s: Db, s': Db)
    requires LockInv(s) && s'.locks == s.locks
    requires forall t :: LiveOps(s', t) == LiveOps(s, t)
    ensures LockInv(s')
  {
    forall t, k
      ensures Accounts(s'.locks, t, k, LiveOps(s', t))
    {
      assert Accounts(s.locks, t, k, LiveOps(s, t));
    }
  }

  /** In a good state an ended transaction appears nowhere in the lock table. */
  lemma EndedHoldsNothing(s: Db, t: Trans, k: string)
    requires LockInv(s) && !Live(s, t)
    ensures Mult(s.locks, k, t) == 0 && !WriteHeld(s.locks, k, t)
  {
    assert Accounts(s.locks, t, k, LiveOps(s, t));
  }

  // ----- Data ---------------------------------------------------------------

  /** What an ended transaction leaves behind: all of it, or the residue of its rollback. */
  function Contribution(o: Outcome): seq<Entry> {
    match o
    case Kept(log) => log
    case Dropped(log) => Residue(log)
  }

  /** The map after replaying the contributions one at a time, in the order of ending. */
  function Serial(m: Store, history: seq<Outcome>): Store
    decreases |history|, 1
  {
    SerialLast(m, history)
  }

  function SerialLast(m: Store, history: seq<Outcome>): Store
    decreases |history|, 0
  {
    if history == [] then m
    else Apply(Serial(m, history[..|history| - 1]), Contribution(history[|history| - 1]))
  }

  /** Every operation of every contribution saw what it sees in that replay. */
  ghost predicate SerialOk(m: Store, history: seq<Outcome>)
    decreases |history|, 1
  {
    SerialOkLast(m, history)
  }

  ghost predicate SerialOkLast(m: Store, history: seq<Outcome>)
    decreases |history|, 0
  {
    history == [] ||
    (SerialOk(m, history[..|history| - 1]) &&
     Faithful(Serial(m, history[..|history| - 1]), Contribution(history[|history| - 1])))
  }

  lemma SerialSnoc(m: Store, history: seq<Outcome>, o: Outcome)
    ensures Serial(m, history + [o]) == Apply(Serial(m, history), Contribution(o))
    ensures SerialOk(m, history + [o]) <==> SerialOk(m, history) && Faithful(Serial(m, history), Contribution(o))
  {
    assert (history + [o])[..|history|] == history;
  }

  function WriterOf(locks: Locks, k: string): Option<Trans> {
    if k in locks && locks[k].kind.WriteLock? && locks[k].holders != [] then Some(locks[k].holders[0]) else None
  }

  /** What the map must hold at `k`: the serial value, seen through the writer's own log. */
  function Expected(s: Db, serial: Store, k: string): Option<string> {
    match WriterOf(s.locks, k)
    case None => Lookup(serial, k)
    case Some(t) => Lookup(Apply(serial, LiveLog(s, t)), k)
  }

  ghost predicate FetchedOk(s: Db, t: Trans) {
    t in s.trans && s.trans[t].phase.Fetched? ==>
      !s.trans[t].phase.op.Read? && s.trans[t].phase.seen == Lookup(s.store, s.trans[t].phase.op.key)
  }

  ghost predicate DataInv(s: Db, serial: Store) {
    && (forall t :: Faithful(serial, LiveLog(s, t)))
    && (forall k :: Lookup(s.store, k) == Expected(s, serial, k))
    && (forall t :: FetchedOk(s, t))
  }

  lemma WriterIsHolder(locks: Locks, k: string, t: Trans)
    requires Sane(locks)
    ensures WriterOf(locks, k) == Some(t) <==> WriteHeld(locks, k, t)
  {
    if k in locks && locks[k].kind.WriteLock? {
      assert locks[k].holders == [locks[k].holders[0]];
    }
  }

  lemma LiveLogWrites(s: Db, t: Trans, k: string)
    requires LockInv(s)
    ensures CountWrites(OpsOf(LiveLog(s, t)), k) <= 1
    ensures !WriteHeld(s.locks, k, t) ==> CountWrites(OpsOf(LiveLog(s, t)), k) == 0
    ensures CountKey(OpsOf(LiveLog(s, t)), k) > 0 ==> Mult(s.locks, k, t) > 0
    ensures Live(s, t) && (s.trans[t].phase.Granted? || s.trans[t].phase.Fetched?) ==>
              Mult(s.locks, s.trans[t].phase.op.key, t) > 0 &&
              (!s.trans[t].phase.op.Read? ==> WriteHeld(s.locks, s.trans[t].phase.op.key, t))
  {
    assert Accounts(s.locks, t, k, LiveOps(s, t));
    if Live(s, t) && (s.trans[t].phase.Granted? || s.trans[t].phase.Fetched?) {
      var op := s.trans[t].phase.op;
      assert Accounts(s.locks, t, op.key, LiveOps(s, t));
      CountsSnoc(OpsOf(s.trans[t].log), op, k);
      CountsSnoc(OpsOf(s.trans[t].log), op, op.key);
    } else if Live(s, t) {
      assert LiveOps(s, t) == OpsOf(LiveLog(s, t));
    }
  }

  /** A transaction that holds `k` finds in the map what its own log would produce there. */
  lemma HolderReadsSerial(s: Db, serial: Store, t: Trans, k: string)
    requires LockInv(s) && DataInv(s, serial) && Mult(s.locks, k, t) > 0
    ensures Lookup(s.store, k) == Lookup(Apply(serial, LiveLog(s, t)), k)
  {
    match WriterOf(s.locks, k) {
      case None =>
        WriterIsHolder(s.locks, k, t);
        LiveLogWrites(s, t, k);
        UnwrittenKeyUnchanged(serial, LiveLog(s, t), k);
      case Some(w) =>
        WriterIsHolder(s.locks, k, w);
        ExclusiveMult(s.locks, k, w, t);
    }
  }

  lemma AcquireKeepsData(s: Db, serial: Store, t: Trans, op: Op)
    requires LockInv(s) && DataInv(s, serial) && Enabled(s, Acquire(t, op))
    ensures DataInv(Next(s, Acquire(t, op)), serial)
  {
    var s' := Next(s, Acquire(t, op));
    assert forall u :: LiveLog(s', u) == LiveLog(s, u);
    assert forall u :: FetchedOk(s, u) ==> FetchedOk(s', u);
    if Locked(s.locks, t, op).0 {
      forall k
        ensures Expected(s', serial, k) == Expected(s, serial, k)
      {
        GrantKeepsExpected(s, s', serial, t, op, k);
      }
    } else {
      assert forall k :: Expected(s', serial, k) == Expected(s, serial, k);
    }
  }

  lemma GrantKeepsExpected(s: Db, s': Db, serial: Store, t: Trans, op: Op, k: string)
    requires LockInv(s) && Locked(s.locks, t, op).0 && s'.locks == Locked(s.locks, t, op).1
    requires forall u :: LiveLog(s', u) == LiveLog(s, u)
    ensures Expected(s', serial, k) == Expected(s, serial, k)
  {
    if k == op.key {
      WriterAfterGrant(s.locks, t, op);
      WriterIsHolder(s.locks, k, t);
      if !op.Read? {
        LiveLogWrites(s, t, k);
        UnwrittenKeyUnchanged(serial, LiveLog(s, t), k);
      }
    }
  }

  lemma WriterAfterGrant(locks: Locks, t: Trans, op: Op)
    requires Sane(locks) && Locked(locks, t, op).0
    ensures WriterOf(Locked(locks, t, op).1, op.key)
         == if op.Read? then WriterOf(locks, op.key) else Some(t)
    ensures !op.Read? ==> WriterOf(locks, op.key) == None
  {
    GrantEffect(locks, t, op, op.key, t);
    WriterIsHolder(Locked(locks, t, op).1, op.key, t);
  }

  /** One more executed operation keeps the transaction faithful and the map expected. */
  lemma ExecuteKeepsData(s: Db, serial: Store, t: Trans, e: Entry)
    requires LockInv(s) && DataInv(s, serial) && Live(s, t)
    requires s.trans[t].phase.Granted? || s.trans[t].phase.Fetched?
    requires s.trans[t].phase.op == e.op && e.seen == Lookup(s.store, e.op.key)
    ensures DataInv(Executed(s.(store := Effect(s.store, e.op)), t, e), serial)
  {
    var s' := Executed(s.(store := Effect(s.store, e.op)), t, e);
    LiveLogWrites(s, t, e.op.key);
    HolderReadsSerial(s, serial, t, e.op.key);
    LogSnoc(serial, s.trans[t].log, e);
    forall u
      ensures Faithful(serial, LiveLog(s', u)) && FetchedOk(s', u)
    {
      assert Faithful(serial, LiveLog(s, u)) && FetchedOk(s, u);
      if u != t && u in s.trans && s.trans[u].phase.Fetched? {
        OthersKeepTheirValue(s, t, e.op, u);
      }
    }
    forall k
      ensures Lookup(s'.store, k) == Expected(s', serial, k)
    {
      assert Lookup(s.store, k) == Expected(s, serial, k);
      WriterIsHolder(s.locks, k, t);
      EffectElsewhere(s.store, Apply(serial, s.trans[t].log), e.op, k);
    }
  }

  lemma EffectElsewhere(m: Store, m': Store, op: Op, k: string)
    ensures !Writes(op, k) ==> Lookup(Effect(m, op), k) == Lookup(m, k)
    ensures Writes(op, k) ==> Lookup(Effect(m, op), k) == Lookup(Effect(m', op), k)
  {
  }

  lemma OthersKeepTheirValue(s: Db, t: Trans, op: Op, u: Trans)
    requires LockInv(s) && u != t && u in s.trans && s.trans[u].phase.Fetched? && !s.trans[u].phase.op.Read?
    requires !op.Read? ==> WriteHeld(s.locks, op.key, t)
    ensures Lookup(Effect(s.store, op), s.trans[u].phase.op.key) == Lookup(s.store, s.trans[u].phase.op.key)
  {
    var key := s.trans[u].phase.op.key;
    LiveLogWrites(s, u, key);
    if Writes(op, key) {
      ExclusiveMult(s.locks, key, t, u);
    }
  }

  /** Ending a transaction: the contribution `c` enters the replay, and the new map `store'`
      agrees with it on the keys the transaction had write-locked. */
  lemma EndKeepsData(s: Db, s': Db, serial: Store, t: Trans, c: seq<Entry>)
    requires LockInv(s) && DataInv(s, serial) && Live(s, t) && LiveOps(s, t) == OpsOf(s.trans[t].log)
    requires LockInv(s') && !Live(s', t)
    requires forall u :: u != t ==> LiveOps(s', u) == LiveOps(s, u) && LiveLog(s', u) == LiveLog(s, u)
    requires forall u :: u != t && u in s'.trans ==> u in s.trans && s'.trans[u] == s.trans[u]
    requires t in s'.trans && !s'.trans[t].phase.Fetched?
    requires forall k, u :: u != t ==> (WriteHeld(s'.locks, k, u) <==> WriteHeld(s.locks, k, u))
    requires forall k :: CountWrites(OpsOf(c), k) <= CountWrites(OpsOf(s.trans[t].log), k)
    requires forall k :: Lookup(s'.store, k)
               == if WriteHeld(s.locks, k, t) then Lookup(Apply(serial, c), k) else Lookup(s.store, k)
    ensures DataInv(s', Apply(serial, c))
  {
    var serial' := Apply(serial, c);
    forall k
      ensures !WriteHeld(s.locks, k, t) ==> Lookup(serial', k) == Lookup(serial, k)
    {
      LiveLogWrites(s, t, k);
      if !WriteHeld(s.locks, k, t) {
        UnwrittenKeyUnchanged(serial, c, k);
      }
    }
    forall u
      ensures Faithful(serial', LiveLog(s', u)) && FetchedOk(s', u)
    {
      assert Faithful(serial, LiveLog(s, u)) && FetchedOk(s, u);
      if u != t {
        forall k | CountKey(OpsOf(LiveLog(s, u)), k) > 0
          ensures Lookup(serial, k) == Lookup(serial', k)
        {
          LiveLogWrites(s, u, k);
          if WriteHeld(s.locks, k, t) {
            ExclusiveMult(s.locks, k, t, u);
          }
        }
        FaithfulIsLocal(serial, serial', LiveLog(s, u));
        if u in s'.trans && s'.trans[u].phase.Fetched? {
          var key := s'.trans[u].phase.op.key;
          LiveLogWrites(s, u, key);
          if WriteHeld(s.locks, key, t) {
            ExclusiveMult(s.locks, key, t, u);
          }
        }
      }
    }
    forall k
      ensures Lookup(s'.store, k) == Expected(s', serial', k)
    {
      assert Lookup(s.store, k) == Expected(s, serial, k);
      match WriterOf(s'.locks, k) {
        case Some(w) =>
          WriterIsHolder(s'.locks, k, w);
          EndedIsNotWriter(s', t, k);
          WriterIsHolder(s.locks, k, w);
          WriterIsHolder(s.locks, k, t);
          ApplyIsLocal(serial, serial', LiveLog(s, w), k);
        case None =>
          WriterIsHolder(s.locks, k, t);
          match WriterOf(s.locks, k) {
            case Some(w) =>
              WriterIsHolder(s.locks, k, w);
              WriterIsHolder(s'.locks, k, w);
            case None =>
          }
      }
    }
  }

  lemma EndedIsNotWriter(s: Db, t: Trans, k: string)
    requires LockInv(s) && !Live(s, t)
    ensures WriterOf(s.locks, k) != Some(t)
  {
    EndedHoldsNothing(s, t, k);
    WriterIsHolder(s.locks, k, t);
  }

  // ----- Wait graph ---------------------------------------------------------

  /** The tables are consistent, and only live transactions are recorded as blockers. */
  ghost predicate GraphInv(s: Db) {
    Consistent(s.tree) && forall x, y :: Edges(s.tree.blockedBy, x, y) > 0 ==> Live(s, y)
  }

  lemma {:induction false} AddedAllKeeps(s: Db, tree: Tree, holders: seq<Trans>, t: Trans)
    requires Consistent(tree) && forall x, y :: Edges(tree.blockedBy, x, y) > 0 ==> Live(s, y)
    requires forall h :: h in holders ==> Live(s, h)
    ensures var tree' := AddedAll(tree, holders, t).1;
            Consistent(tree') && forall x, y :: Edges(tree'.blockedBy, x, y) > 0 ==> Live(s, y)
    decreases |holders|
  {
    if holders != [] && !Meets(tree.blockedBy, holders[0], t) {
      AddKeepsConsistent(tree, holders[0], t);
      forall x, y
        ensures Edges(Added(tree, holders[0], t).blockedBy, x, y) > 0 ==> Live(s, y)
      {
        PushedEdges(tree.blockedBy, t, holders[0], x, y);
      }
      AddedAllKeeps(s, Added(tree, holders[0], t), holders[1..], t);
    }
  }

  lemma GraphInvStep(s: Db, e: Event)
    requires LockInv(s) && GraphInv(s) && Enabled(s, e)
    ensures GraphInv(Next(s, e))
  {
    match e {
      case Acquire(t, op) => AcquireKeepsGraphInv(s, t, op);
      case Commit(t) => RemoveKeepsGraphInv(s, Next(s, e), t);
      case Rollback(t) => RemoveKeepsGraphInv(s, Next(s, e), t);
      case Open(t) => SameTree(s, Next(s, e));
      case Fetch(t) => SameTree(s, Next(s, e));
      case Put(t) => SameTree(s, Next(s, e));
    }
  }

  lemma SameTree(s: Db, s': Db)
    requires GraphInv(s) && s'.tree == s.tree && forall u :: Live(s, u) ==> Live(s', u)
    ensures GraphInv(s')
  {
  }

  lemma RemoveKeepsGraphInv(s: Db, s': Db, t: Trans)
    requires GraphInv(s) && s'.tree == Removed(s.tree, t) && forall u :: u != t && Live(s, u) ==> Live(s', u)
    ensures GraphInv(s')
  {
    RemoveKeepsConsistent(s.tree, t);
  }

  lemma AcquireKeepsGraphInv(s: Db, t: Trans, op: Op)
    requires LockInv(s) && GraphInv(s) && Enabled(s, Acquire(t, op))
    ensures GraphInv(Next(s, Acquire(t, op)))
  {
    var s' := Next(s, Acquire(t, op));
    assert forall u :: Live(s, u) ==> Live(s', u);
    if !Locked(s.locks, t, op).0 {
      HoldersAreLive(s, op.key);
      AddedAllKeeps(s, s.tree, s.locks[op.key].holders, t);
    }
  }

  lemma HoldersAreLive(s: Db, k: string)
    requires LockInv(s) && k in s.locks
    ensures forall h :: h in s.locks[k].holders ==> Live(s, h)
  {
    forall h | h in s.locks[k].holders
      ensures Live(s, h)
    {
      assert Accounts(s.locks, h, k, LiveOps(s, h));
      assert h in multiset(s.locks[k].holders);
    }
  }
}
