/** Whole runs of the scheduler: serializability, rollback, locks and the wait graph. */
module YdbRuns {
  import opened YdbOp
  import opened YdbLock
  import opened YdbDeadlock
  import opened YdbSched

  ghost predicate Legal(s: Db, es: seq<Event>)
    decreases |es|
  {
    es == [] || (Enabled(s, es[0]) && Legal(Next(s, es[0]), es[1..]))
  }

  ghost function Run(s: Db, es: seq<Event>): Db
    requires Legal(s, es)
    decreases |es|
  {
    if es == [] then s else Run(Next(s, es[0]), es[1..])
  }

  ghost predicate Inv(s: Db, m: Store) {
    && LockInv(s)
    && GraphInv(s)
    && SerialOk(m, s.history)
    && DataInv(s, Serial(m, s.history))
  }

  lemma InitInv(m: Store)
    ensures Inv(Init(m), m)
  {
  }

  /** A `Commit` after the transaction was rolled back, as `Ydb::Put` issues it after a
      DEADLOCK (ydb/ydb.cpp:76-81), changes nothing at all. */
  lemma CommitAfterRollbackIsNoop(s: Db, m: Store, t: Trans)
    requires Inv(s, m) && t in s.trans && s.trans[t].phase == Aborted
    ensures Enabled(s, Commit(t)) && Next(s, Commit(t)) == s
  {
    forall k
      ensures Mult(s.locks, k, t) == 0
    {
      EndedHoldsNothing(s, t, k);
    }
    UnlockAllOfNonHolder(s.locks, t, OpsOf(s.trans[t].log));
    RemoveOfNonBlocker(s.tree, t);
  }

  lemma CommitKeepsData(s: Db, m: Store, t: Trans)
    requires Inv(s, m) && t in s.trans && s.trans[t].phase == Idle
    ensures var s' := Next(s, Commit(t)); SerialOk(m, s'.history) && DataInv(s', Serial(m, s'.history))
  {
    var s', serial, log := Next(s, Commit(t)), Serial(m, s.history), s.trans[t].log;
    assert Faithful(serial, LiveLog(s, t));
    SerialSnoc(m, s.history, Kept(log));
    LockInvStep(s, Commit(t));
    ReleaseKeepsLockInv(s, s', t);
    forall k | WriteHeld(s.locks, k, t)
      ensures Lookup(s.store, k) == Lookup(Apply(serial, log), k)
    {
      HolderReadsSerial(s, serial, t, k);
    }
    EndKeepsData(s, s', serial, t, log);
  }

  lemma RollbackAtKey(s: Db, serial: Store, t: Trans, k: string)
    requires LockInv(s) && DataInv(s, serial) && Live(s, t)
    ensures Lookup(UndoAll(s.store, s.trans[t].log), k)
         == if WriteHeld(s.locks, k, t) then Lookup(Apply(serial, Residue(s.trans[t].log)), k) else Lookup(s.store, k)
  {
    var log := s.trans[t].log;
    assert Faithful(serial, LiveLog(s, t));
    LiveLogWrites(s, t, k);
    if WriteHeld(s.locks, k, t) {
      HolderReadsSerial(s, serial, t, k);
      UndoLeavesResidue(serial, s.store, log, k);
    } else {
      UnwrittenKeyUnchanged(s.store, log, k);
    }
  }

  lemma RollbackKeepsData(s: Db, m: Store, t: Trans)
    requires Inv(s, m) && t in s.trans && (s.trans[t].phase == Idle || s.trans[t].phase == Doomed)
    ensures var s' := Next(s, Rollback(t)); SerialOk(m, s'.history) && DataInv(s', Serial(m, s'.history))
  {
    var s', serial, log := Next(s, Rollback(t)), Serial(m, s.history), s.trans[t].log;
    assert Faithful(serial, LiveLog(s, t));
    SerialSnoc(m, s.history, Dropped(log));
    LockInvStep(s, Rollback(t));
    ReleaseKeepsLockInv(s, s', t);
    forall k
      ensures CountWrites(OpsOf(log), k) <= 1
      ensures CountWrites(OpsOf(Residue(log)), k) <= CountWrites(OpsOf(log), k)
      ensures Lookup(s'.store, k)
           == if WriteHeld(s.locks, k, t) then Lookup(Apply(serial, Residue(log)), k) else Lookup(s.store, k)
    {
      LiveLogWrites(s, t, k);
      ResidueCounts(log, k);
      RollbackAtKey(s, serial, t, k);
    }
    ResidueFaithful(serial, log);
    EndKeepsData(s, s', serial, t, Residue(log));
  }

  lemma FetchKeepsData(s: Db, serial: Store, t: Trans)
    requires LockInv(s) && DataInv(s, serial) && Enabled(s, Fetch(t))
    ensures DataInv(Next(s, Fetch(t)), serial)
  {
    var s', op := Next(s, Fetch(t)), s.trans[t].phase.op;
    var seen := Lookup(s.store, op.key);
    if op.Read? || (op.Delete? && seen.None?) {
      ExecuteKeepsData(s, serial, t, Entry(op, seen));
      assert Effect(s.store, op) == s.store;
    } else {
      assert forall u :: LiveLog(s', u) == LiveLog(s, u);
      assert forall u :: FetchedOk(s, u) ==> FetchedOk(s', u);
      assert forall k :: Expected(s', serial, k) == Expected(s, serial, k);
    }
  }

  lemma OpenKeepsData(s: Db, serial: Store, t: Trans)
    requires LockInv(s) && DataInv(s, serial) && t !in s.trans
    ensures DataInv(Next(s, Open(t)), serial)
  {
    var s' := Next(s, Open(t));
    assert forall u :: LiveLog(s', u) == LiveLog(s, u);
    assert forall u :: FetchedOk(s, u) ==> FetchedOk(s', u);
    assert forall k :: Expected(s', serial, k) == Expected(s, serial, k);
  }

  /** Every step of every transaction keeps the invariant. */
  lemma StepKeepsInv(s: Db, m: Store, e: Event)
    requires Inv(s, m) && Enabled(s, e)
    ensures Inv(Next(s, e), m)
  {
    LockInvStep(s, e);
    GraphInvStep(s, e);
    var serial := Serial(m, s.history);
    match e {
      case Open(t) => OpenKeepsData(s, serial, t);
      case Acquire(t, op) => AcquireKeepsData(s, serial, t, op);
      case Fetch(t) => FetchKeepsData(s, serial, t);
      case Put(t) =>
        assert FetchedOk(s, t);
        ExecuteKeepsData(s, serial, t, Entry(s.trans[t].phase.op, s.trans[t].phase.seen));
      case Commit(t) =>
        if s.trans[t].phase == Aborted {
          CommitAfterRollbackIsNoop(s, m, t);
        } else {
          CommitKeepsData(s, m, t);
        }
      case Rollback(t) => RollbackKeepsData(s, m, t);
    }
  }

  lemma {:induction false} RunKeepsInv(s: Db, m: Store, es: seq<Event>)
    requires Inv(s, m) && Legal(s, es)
    ensures Inv(Run(s, es), m)
    decreases |es|
  {
    if es != [] {
      StepKeepsInv(s, m, es[0]);
      RunKeepsInv(Next(s, es[0]), m, es[1..]);
    }
  }

  ghost predicate Reachable(s: Db, m: Store) {
    exists es :: Legal(Init(m), es) && Run(Init(m), es) == s
  }

  lemma ReachableInv(s: Db, m: Store)
    requires Reachable(s, m)
    ensures Inv(s, m)
  {
    var es :| Legal(Init(m), es) && Run(Init(m), es) == s;
    InitInv(m);
    RunKeepsInv(Init(m), m, es);
  }

  /** Serializability, for every run: replaying the ended transactions one at a time, in the
      order in which they ended, shows every operation what it saw in the run, and yields the
      map on every key that is not write-locked.  A rolled-back transaction contributes its
      residue, the writes whose key did not exist before. */
  lemma Serializability(m: Store, es: seq<Event>)
    requires Legal(Init(m), es)
    ensures var s := Run(Init(m), es);
            && SerialOk(m, s.history)
            && forall k :: (forall t :: !WriteHeld(s.locks, k, t)) ==> Lookup(s.store, k) == Lookup(Serial(m, s.history), k)
  {
    var s := Run(Init(m), es);
    InitInv(m);
    RunKeepsInv(Init(m), m, es);
    forall k | forall t :: !WriteHeld(s.locks, k, t)
      ensures Lookup(s.store, k) == Lookup(Serial(m, s.history), k)
    {
      assert Lookup(s.store, k) == Expected(s, Serial(m, s.history), k);
      if WriterOf(s.locks, k).Some? {
        WriterIsHolder(s.locks, k, WriterOf(s.locks, k).value);
      }
    }
  }

  /** The committed transactions alone. */
  function KeptOnly(history: seq<Outcome>): seq<Outcome>
    decreases |history|, 1
  {
    KeptOnlyLast(history)
  }

  function KeptOnlyLast(history: seq<Outcome>): seq<Outcome>
    decreases |history|, 0
  {
    if history == [] then []
    else KeptOnly(history[..|history| - 1]) + if history[|history| - 1].Kept? then [history[|history| - 1]] else []
  }

  /** No rolled-back transaction had written a key that did not exist. */
  predicate NoResidue(history: seq<Outcome>) {
    forall i :: 0 <= i < |history| ==> history[i].Dropped? ==> Residue(history[i].log) == []
  }

  lemma FrontAndLast<T>(s: seq<T>, n: nat)
    requires n <= |s|
    ensures n == |s| ==> s[..n] == s
    ensures n < |s| ==> s[..|s| - 1][..n] == s[..n] && s == s[..|s| - 1] + [s[|s| - 1]]
  {
  }

  lemma KeptOnlySnoc(front: seq<Outcome>, o: Outcome)
    ensures KeptOnly(front + [o]) == if o.Kept? then KeptOnly(front) + [o] else KeptOnly(front)
  {
    assert (front + [o])[..|front|] == front;
  }

  lemma CleanStep(m: Store, front: seq<Outcome>, o: Outcome)
    requires Serial(m, KeptOnly(front)) == Serial(m, front)
    requires SerialOk(m, front) ==> SerialOk(m, KeptOnly(front))
    requires o.Dropped? ==> Residue(o.log) == []
    ensures Serial(m, KeptOnly(front + [o])) == Serial(m, front + [o])
    ensures SerialOk(m, front + [o]) ==> SerialOk(m, KeptOnly(front + [o]))
  {
    KeptOnlySnoc(front, o);
    SerialSnoc(m, front, o);
    if o.Kept? {
      SerialSnoc(m, KeptOnly(front), o);
    } else {
      assert Contribution(o) == [];
    }
  }

  lemma {:induction false} CleanHistory(m: Store, history: seq<Outcome>)
    requires NoResidue(history)
    ensures Serial(m, KeptOnly(history)) == Serial(m, history)
    ensures SerialOk(m, history) ==> SerialOk(m, KeptOnly(history))
  {
    if history != [] {
      var front, o := history[..|history| - 1], history[|history| - 1];
      FrontAndLast(history, |history| - 1);
      CleanHistory(m, front);
      CleanStep(m, front, o);
    }
  }

  /** Two maps on which the same log is faithful agree on every key the log touches. */
  lemma {:induction false} FaithfulFixesTouchedKeys(m: Store, m': Store, log: seq<Entry>, k: string)
    requires Faithful(m, log) && Faithful(m', log) && CountKey(OpsOf(log), k) > 0
    ensures Lookup(m, k) == Lookup(m', k)
  {
    var front, e := log[..|log| - 1], log[|log| - 1];
    assert log == front + [e];
    OpsOfSnoc(front, e);
    CountsSnoc(OpsOf(front), e.op, k);
    if CountKey(OpsOf(front), k) > 0 {
      FaithfulFixesTouchedKeys(m, m', front, k);
    } else {
      CountWritesAtMostCountKey(OpsOf(front), k);
      UnwrittenKeyUnchanged(m, front, k);
      UnwrittenKeyUnchanged(m', front, k);
    }
  }

  lemma ResidueStaysStep(all: Store, kept: Store, o: Outcome, k: string)
    requires k in all && k !in kept
    requires o.Kept? ==> Faithful(all, o.log) && Faithful(kept, o.log)
    ensures k in Apply(all, Contribution(o))
    ensures o.Kept? ==> k !in Apply(kept, o.log)
  {
    if o.Dropped? {
      ResidueNeverDeletes(all, o.log, k);
    } else {
      assert Lookup(all, k) != Lookup(kept, k);
      if CountKey(OpsOf(o.log), k) > 0 {
        FaithfulFixesTouchedKeys(all, kept, o.log, k);
      } else {
        CountWritesAtMostCountKey(OpsOf(o.log), k);
        UnwrittenKeyUnchanged(all, o.log, k);
        UnwrittenKeyUnchanged(kept, o.log, k);
        assert Lookup(Apply(all, o.log), k) == Lookup(all, k) && Lookup(Apply(kept, o.log), k) == Lookup(kept, k);
      }
    }
  }

  lemma ResidueStaysOne(m: Store, front: seq<Outcome>, o: Outcome, k: string)
    requires SerialOk(m, front + [o]) && SerialOk(m, KeptOnly(front + [o]))
    requires k in Serial(m, front) && k !in Serial(m, KeptOnly(front))
    ensures k in Serial(m, front + [o]) && k !in Serial(m, KeptOnly(front + [o]))
  {
    SerialSnoc(m, front, o);
    KeptOnlySnoc(front, o);
    if o.Kept? { SerialSnoc(m, KeptOnly(front), o); }
    ResidueStaysStep(Serial(m, front), Serial(m, KeptOnly(front)), o, k);
  }

  /** A key that exists only because of a residue stays visibly wrong. */
  lemma {:induction false} ResidueStays(m: Store, history: seq<Outcome>, n: nat, k: string)
    requires n <= |history|
    requires SerialOk(m, history) && SerialOk(m, KeptOnly(history))
    requires k in Serial(m, history[..n]) && k !in Serial(m, KeptOnly(history[..n]))
    ensures k in Serial(m, history) && k !in Serial(m, KeptOnly(history))
    decreases |history|
  {
    FrontAndLast(history, n);
    if n < |history| {
      var front, o := history[..|history| - 1], history[|history| - 1];
      KeptOnlyPrefix(m, history, |history| - 1);
      ResidueStays(m, front, n, k);
      ResidueStaysOne(m, front, o, k);
    }
  }

  lemma {:induction false} ResidueNeverDeletes(m: Store, log: seq<Entry>, k: string)
    requires k in m
    ensures k in Apply(m, Residue(log))
  {
    if log != [] {
      var front, e := log[..|log| - 1], log[|log| - 1];
      ResidueNeverDeletes(m, front, k);
      if e.op.Write? && e.seen.None? {
        LogSnoc(m, Residue(front), e);
      } else {
        assert Residue(log) == Residue(front);
      }
    }
  }

  lemma {:induction false} KeptOnlyPrefix(m: Store, history: seq<Outcome>, n: nat)
    requires n <= |history|
    ensures SerialOk(m, history) ==> SerialOk(m, history[..n])
    ensures SerialOk(m, KeptOnly(history)) ==> SerialOk(m, KeptOnly(history[..n]))
    decreases |history|
  {
    FrontAndLast(history, n);
    if n < |history| {
      var front, o := history[..|history| - 1], history[|history| - 1];
      KeptOnlyPrefix(m, front, n);
      KeptOnlySnoc(front, o);
      SerialSnoc(m, front, o);
      SerialSnoc(m, KeptOnly(front), o);
    }
  }

  /** The first dirty rollback leaves a key that the committed transactions alone do not have. */
  lemma FirstResidueShows(m: Store, history: seq<Outcome>, n: nat) returns (k: string)
    requires n < |history| && NoResidue(history[..n])
    requires history[n].Dropped? && Residue(history[n].log) != [] && WritesOnce(history[n].log)
    requires SerialOk(m, history)
    ensures k in Serial(m, history[..n + 1]) && k !in Serial(m, KeptOnly(history[..n + 1]))
  {
    var front, o := history[..n], history[n];
    assert history[..n + 1] == front + [o];
    KeptOnlyPrefix(m, history, n + 1);
    SerialSnoc(m, front, o);
    CleanHistory(m, front);
    KeptOnlySnoc(front, o);
    k := ResidueLeavesNewKey(Serial(m, front), o.log);
  }

  ghost predicate AllWriteOnce(history: seq<Outcome>) {
    forall o :: o in history ==> WritesOnce(o.log)
  }

  lemma StepKeepsWriteOnce(s: Db, m: Store, e: Event)
    requires Inv(s, m) && Enabled(s, e) && AllWriteOnce(s.history)
    ensures AllWriteOnce(Next(s, e).history)
  {
    if e.t in s.trans {
      forall k
        ensures CountWrites(OpsOf(LiveLog(s, e.t)), k) <= 1
      {
        LiveLogWrites(s, e.t, k);
      }
      assert WritesOnce(LiveLog(s, e.t));
    }
  }

  lemma {:induction false} HistoryWritesOnce(s: Db, m: Store, es: seq<Event>)
    requires Inv(s, m) && Legal(s, es) && AllWriteOnce(s.history)
    ensures AllWriteOnce(Run(s, es).history)
    decreases |es|
  {
    if es != [] {
      StepKeepsInv(s, m, es[0]);
      StepKeepsWriteOnce(s, m, es[0]);
      HistoryWritesOnce(Next(s, es[0]), m, es[1..]);
    }
  }

  /** When no rolled-back transaction had written a key that did not exist, the committed
      transactions alone explain a run: replaying them one at a time in commit order shows
      every operation what it saw, and yields the map on every key not write-locked. */
  lemma CommittedReplay(m: Store, es: seq<Event>)
    requires Legal(Init(m), es) && NoResidue(Run(Init(m), es).history)
    ensures var s := Run(Init(m), es);
            SerialOk(m, KeptOnly(s.history)) &&
            forall k :: (forall t :: !WriteHeld(s.locks, k, t)) ==>
              Lookup(s.store, k) == Lookup(Serial(m, KeptOnly(s.history)), k)
  {
    Serializability(m, es);
    CleanHistory(m, Run(Init(m), es).history);
  }

  /** The exact condition for the committed transactions to explain a run by themselves: in a
      state without write locks, replaying only the committed transactions in commit order
      shows every operation what it saw and yields the map if and only if no rolled-back
      transaction had written a key that did not exist. */
  lemma CommittedReplayIffNoResidue(m: Store, es: seq<Event>)
    requires Legal(Init(m), es)
    requires forall k, t :: !WriteHeld(Run(Init(m), es).locks, k, t)
    ensures var s := Run(Init(m), es);
            SerialOk(m, KeptOnly(s.history)) && s.store == Serial(m, KeptOnly(s.history)) <==> NoResidue(s.history)
  {
    var s := Run(Init(m), es);
    var h := s.history;
    Serializability(m, es);
    SameLookups(s.store, Serial(m, h));
    if NoResidue(h) {
      CleanHistory(m, h);
    } else if SerialOk(m, KeptOnly(h)) {
      InitInv(m);
      HistoryWritesOnce(Init(m), m, es);
      DirtyHistoryShows(m, h);
    }
  }

  lemma DirtyHistoryShows(m: Store, history: seq<Outcome>)
    requires SerialOk(m, history) && SerialOk(m, KeptOnly(history))
    requires !NoResidue(history) && AllWriteOnce(history)
    ensures Serial(m, history) != Serial(m, KeptOnly(history))
  {
    var n := FirstDirty(history);
    var k := FirstResidueShows(m, history, n);
    ResidueStays(m, history, n + 1, k);
  }

  lemma {:induction false} FirstDirty(history: seq<Outcome>) returns (n: nat)
    requires !NoResidue(history)
    ensures n < |history| && NoResidue(history[..n]) && history[n].Dropped? && Residue(history[n].log) != []
  {
    var front := history[..|history| - 1];
    if NoResidue(front) {
      n := |history| - 1;
    } else {
      n := FirstDirty(front);
      FrontAndLast(history, n);
    }
  }
}
