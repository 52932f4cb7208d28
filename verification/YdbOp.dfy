/** Database operations and what they do to the key/value map (ydb/ydb_op.cpp).

    An operation remembers what `Get` returned when it ran (`exists_` and
    `orig_value_` in the source); an `Entry` is an operation together with that
    memory.  `Ydb_Map` is the map its header describes. */
module YdbOp {
  import opened Options

  type Store = map<string, string>

  datatype LockKind = ReadLock | WriteLock

  datatype Op = Read(key: string) | Write(key: string, value: string) | Delete(key: string)

  datatype Entry = Entry(op: Op, seen: Option<string>)

  function KindOf(op: Op): LockKind {
    if op.Read? then ReadLock else WriteLock
  }

  predicate Writes(op: Op, k: string) {
    !op.Read? && op.key == k
  }

  function Lookup(m: Store, k: string): Option<string> {
    if k in m then Some(m[k]) else None
  }

  /** The map after `Execute`. */
  function Effect(m: Store, op: Op): Store {
    match op
    case Read(_) => m
    case Write(k, v) => m[k := v]
    case Delete(k) => m - {k}
  }

  /** The map after `Rollback` of one executed operation: a write or delete that
      found a value puts it back; one that found nothing does nothing. */
  function Undo(m: Store, e: Entry): Store {
    if e.op.Read? || e.seen.None? then m else m[e.op.key := e.seen.value]
  }

  /** The map after a log.  Each recursive function below goes by way of a second one that
      splits the last entry off, so that a proof unfolds it only where it asks for it. */
  function Apply(m: Store, log: seq<Entry>): Store
    decreases |log|, 1
  {
    ApplyLast(m, log)
  }

  function ApplyLast(m: Store, log: seq<Entry>): Store
    decreases |log|, 0
  {
    if log == [] then m else Effect(Apply(m, log[..|log| - 1]), log[|log| - 1].op)
  }

  /** Undoes the operations in the order they were executed, as the scheduler does. */
  function UndoAll(m: Store, log: seq<Entry>): Store
    decreases |log|, 1
  {
    UndoAllLast(m, log)
  }

  function UndoAllLast(m: Store, log: seq<Entry>): Store
    decreases |log|, 0
  {
    if log == [] then m else Undo(UndoAll(m, log[..|log| - 1]), log[|log| - 1])
  }

  /** Every operation of `log` saw exactly what it would see if `log` ran alone on `m`. */
  predicate Faithful(m: Store, log: seq<Entry>)
    decreases |log|, 1
  {
    FaithfulLast(m, log)
  }

  predicate FaithfulLast(m: Store, log: seq<Entry>)
    decreases |log|, 0
  {
    log == [] ||
    (Faithful(m, log[..|log| - 1]) &&
     log[|log| - 1].seen == Lookup(Apply(m, log[..|log| - 1]), log[|log| - 1].op.key))
  }

  function OpsOf(log: seq<Entry>): (ops: seq<Op>)
    ensures |ops| == |log|
  {
    seq(|log|, i requires 0 <= i < |log| => log[i].op)
  }

  function CountKey(ops: seq<Op>, k: string): nat {
    if ops == [] then 0
    else CountKey(ops[..|ops| - 1], k) + if ops[|ops| - 1].key == k then 1 else 0
  }

  function CountWrites(ops: seq<Op>, k: string): nat {
    if ops == [] then 0
    else CountWrites(ops[..|ops| - 1], k) + if Writes(ops[|ops| - 1], k) then 1 else 0
  }

  /** The writes that a rollback does not take back: those that created their key. */
  function Residue(log: seq<Entry>): seq<Entry>
    decreases |log|, 1
  {
    ResidueLast(log)
  }

  function ResidueLast(log: seq<Entry>): seq<Entry>
    decreases |log|, 0
  {
    if log == [] then []
    else
      var e := log[|log| - 1];
      Residue(log[..|log| - 1]) + if e.op.Write? && e.seen.None? then [e] else []
  }

  lemma OpsOfSnoc(log: seq<Entry>, e: Entry)
    ensures OpsOf(log + [e]) == OpsOf(log) + [e.op]
  {
  }

  lemma CountsSnoc(ops: seq<Op>, op: Op, k: string)
    ensures CountKey(ops + [op], k) == CountKey(ops, k) + if op.key == k then 1 else 0
    ensures CountWrites(ops + [op], k) == CountWrites(ops, k) + if Writes(op, k) then 1 else 0
  {
    assert (ops + [op])[..|ops|] == ops;
  }

  lemma LogOfNothing(m: Store)
    ensures Apply(m, []) == UndoAll(m, []) == m
  {
  }

  lemma LogOfOne(m: Store, e: Entry)
    ensures Apply(m, [e]) == Effect(m, e.op) && UndoAll(m, [e]) == Undo(m, e)
  {
    LogOfNothing(m);
    LogSnoc(m, [], e);
    assert [] + [e] == [e];
  }

  lemma LogSnoc(m: Store, log: seq<Entry>, e: Entry)
    ensures Apply(m, log + [e]) == Effect(Apply(m, log), e.op)
    ensures Faithful(m, log + [e]) <==> Faithful(m, log) && e.seen == Lookup(Apply(m, log), e.op.key)
    ensures UndoAll(m, log + [e]) == Undo(UndoAll(m, log), e)
    ensures Residue(log + [e]) == if e.op.Write? && e.seen.None? then Residue(log) + [e] else Residue(log)
  {
    assert (log + [e])[..|log|] == log;
  }

  lemma {:induction false} CountWritesAtMostCountKey(ops: seq<Op>, k: string)
    ensures CountWrites(ops, k) <= CountKey(ops, k)
  {
    if ops != [] {
      CountWritesAtMostCountKey(ops[..|ops| - 1], k);
    }
  }

  /** A log without a write-type operation on `k` leaves `k` alone, forwards and backwards. */
  lemma {:induction false} UnwrittenKeyUnchanged(m: Store, log: seq<Entry>, k: string)
    requires CountWrites(OpsOf(log), k) == 0
    ensures Lookup(Apply(m, log), k) == Lookup(m, k)
    ensures Lookup(UndoAll(m, log), k) == Lookup(m, k)
    ensures Lookup(Apply(m, Residue(log)), k) == Lookup(m, k)
  {
    if log != [] {
      var front, e := log[..|log| - 1], log[|log| - 1];
      assert log == front + [e];
      OpsOfSnoc(front, e);
      CountsSnoc(OpsOf(front), e.op, k);
      UnwrittenKeyUnchanged(m, front, k);
      LogSnoc(m, front, e);
      if e.op.Write? && e.seen.None? {
        LogSnoc(m, Residue(front), e);
      } else {
        assert Residue(log) == Residue(front);
      }
    }
  }

  /** What a log does to one key depends on that key alone. */
  lemma {:induction false} ApplyIsLocal(m: Store, m': Store, log: seq<Entry>, k: string)
    requires Lookup(m, k) == Lookup(m', k)
    ensures Lookup(Apply(m, log), k) == Lookup(Apply(m', log), k)
  {
    if log != [] {
      ApplyIsLocal(m, m', log[..|log| - 1], k);
    }
  }

  /** Whether a log is faithful depends on the keys it touches alone. */
  lemma {:induction false} FaithfulIsLocal(m: Store, m': Store, log: seq<Entry>)
    requires Faithful(m, log)
    requires forall k :: CountKey(OpsOf(log), k) > 0 ==> Lookup(m, k) == Lookup(m', k)
    ensures Faithful(m', log)
  {
    if log != [] {
      var front, e := log[..|log| - 1], log[|log| - 1];
      assert log == front + [e];
      OpsOfSnoc(front, e);
      forall k
        ensures CountKey(OpsOf(log), k) == CountKey(OpsOf(front), k) + if e.op.key == k then 1 else 0
      {
        CountsSnoc(OpsOf(front), e.op, k);
      }
      FaithfulIsLocal(m, m', front);
      ApplyIsLocal(m, m', front, e.op.key);
    }
  }

  /** Rolling back a faithful log that writes `k` at most once leaves at `k` what the
      transaction started from, plus the residue of a write that created `k`. */
  lemma {:induction false} UndoLeavesResidue(start: Store, now: Store, log: seq<Entry>, k: string)
    requires Faithful(start, log)
    requires CountWrites(OpsOf(log), k) <= 1
    requires Lookup(now, k) == Lookup(Apply(start, log), k)
    ensures Lookup(UndoAll(now, log), k) == Lookup(Apply(start, Residue(log)), k)
  {
    if log == [] {
      assert UndoAll(now, []) == now && Apply(start, []) == start && Residue([]) == [];
    } else {
      var front, e := log[..|log| - 1], log[|log| - 1];
      assert log == front + [e];
      OpsOfSnoc(front, e);
      CountsSnoc(OpsOf(front), e.op, k);
      LogSnoc(start, front, e);
      if Writes(e.op, k) {
        UndoOfItsWrite(start, now, front, e, k);
      } else {
        UndoLeavesResidue(start, now, front, k);
        UndoOfOther(start, now, front, e, k);
      }
    }
  }

  /** The last operation is the one that wrote `k`. */
  lemma UndoOfItsWrite(start: Store, now: Store, front: seq<Entry>, e: Entry, k: string)
    requires Faithful(start, front + [e]) && Writes(e.op, k) && CountWrites(OpsOf(front), k) == 0
    requires Lookup(now, k) == Lookup(Apply(start, front + [e]), k)
    ensures Lookup(UndoAll(now, front + [e]), k) == Lookup(Apply(start, Residue(front + [e])), k)
  {
    LogSnoc(start, front, e);
    LogSnoc(now, front, e);
    UnwrittenKeyUnchanged(start, front, k);
    UnwrittenKeyUnchanged(now, front, k);
    if e.op.Write? && e.seen.None? { LogSnoc(start, Residue(front), e); }
  }

  /** The last operation has nothing to do with `k`. */
  lemma UndoOfOther(start: Store, now: Store, front: seq<Entry>, e: Entry, k: string)
    requires !Writes(e.op, k)
    requires Lookup(UndoAll(now, front), k) == Lookup(Apply(start, Residue(front)), k)
    ensures Lookup(UndoAll(now, front + [e]), k) == Lookup(Apply(start, Residue(front + [e])), k)
  {
    LogSnoc(now, front, e);
    LogSnoc(start, front, e);
    if e.op.Write? && e.seen.None? { LogSnoc(start, Residue(front), e); }
  }

  /** At most one write-type operation per key. */
  ghost predicate WritesOnce(log: seq<Entry>) {
    forall k :: CountWrites(OpsOf(log), k) <= 1
  }

  /** The residue is itself a faithful log: its writes created their keys. */
  lemma {:induction false} ResidueFaithful(start: Store, log: seq<Entry>)
    requires Faithful(start, log) && WritesOnce(log)
    ensures Faithful(start, Residue(log))
  {
    if log != [] {
      var front, e := log[..|log| - 1], log[|log| - 1];
      assert log == front + [e];
      OpsOfSnoc(front, e);
      forall k
        ensures CountWrites(OpsOf(log), k) == CountWrites(OpsOf(front), k) + if Writes(e.op, k) then 1 else 0
      {
        CountsSnoc(OpsOf(front), e.op, k);
      }
      ResidueFaithful(start, front);
      if e.op.Write? && e.seen.None? {
        UnwrittenKeyUnchanged(start, front, e.op.key);
        LogSnoc(start, Residue(front), e);
      } else {
        assert Residue(log) == Residue(front);
      }
    }
  }

  /** A nonempty residue leaves a key that did not exist at the start. */
  lemma ResidueLeavesNewKey(start: Store, log: seq<Entry>) returns (k: string)
    requires Faithful(start, Residue(log)) && Residue(log) != [] && WritesOnce(log)
    ensures k !in start && k in Apply(start, Residue(log))
  {
    var r := Residue(log);
    var e := r[|r| - 1];
    k := e.op.key;
    assert r == r[..|r| - 1] + [e];
    LogSnoc(start, r[..|r| - 1], e);
    ResidueCreates(log);
    ResidueKeysDistinct(log, e);
    UnwrittenKeyUnchanged(start, r[..|r| - 1], k);
    assert Lookup(start, k) == None;
  }

  /** Rollback restores every key exactly when no write of the log created its key. */
  lemma RollbackRestoresIffNoResidue(start: Store, log: seq<Entry>)
    requires Faithful(start, log) && WritesOnce(log)
    ensures UndoAll(Apply(start, log), log) == start <==> Residue(log) == []
  {
    var after := UndoAll(Apply(start, log), log);
    forall k
      ensures Lookup(after, k) == Lookup(Apply(start, Residue(log)), k)
    {
      assert CountWrites(OpsOf(log), k) <= 1;
      UndoLeavesResidue(start, Apply(start, log), log, k);
    }
    if Residue(log) == [] {
      assert Apply(start, []) == start;
      SameLookups(after, start);
    } else {
      ResidueFaithful(start, log);
      var k := ResidueLeavesNewKey(start, log);
      assert Lookup(after, k) != Lookup(start, k);
    }
  }

  lemma SameLookups(m: Store, m': Store)
    requires forall k :: Lookup(m, k) == Lookup(m', k)
    ensures m == m'
  {
    forall k
      ensures k in m <==> k in m'
      ensures k in m ==> m[k] == m'[k]
    {
      assert Lookup(m, k) == Lookup(m', k);
    }
  }

  lemma {:induction false} ResidueCreates(log: seq<Entry>)
    ensures forall i :: 0 <= i < |Residue(log)| ==> Residue(log)[i].op.Write? && Residue(log)[i].seen.None?
  {
    if log == [] {
      assert Residue([]) == [];
    } else {
      var front, e := log[..|log| - 1], log[|log| - 1];
      ResidueCreates(front);
      assert log == front + [e];
      LogSnoc(map[], front, e);
    }
  }

  lemma {:induction false} ResidueCounts(log: seq<Entry>, k: string)
    ensures CountWrites(OpsOf(Residue(log)), k) <= CountWrites(OpsOf(log), k)
  {
    if log != [] {
      var front, e := log[..|log| - 1], log[|log| - 1];
      assert log == front + [e];
      ResidueCounts(front, k);
      OpsOfSnoc(front, e);
      CountsSnoc(OpsOf(front), e.op, k);
      if e.op.Write? && e.seen.None? {
        OpsOfSnoc(Residue(front), e);
        CountsSnoc(OpsOf(Residue(front)), e.op, k);
      } else {
        assert Residue(log) == Residue(front);
      }
    }
  }

  lemma ResidueKeysDistinct(log: seq<Entry>, e: Entry)
    requires WritesOnce(log)
    requires Residue(log) != [] && e == Residue(log)[|Residue(log)| - 1] && e.op.Write?
    ensures CountWrites(OpsOf(Residue(log)[..|Residue(log)| - 1]), e.op.key) == 0
  {
    var r := Residue(log);
    ResidueCounts(log, e.op.key);
    assert r == r[..|r| - 1] + [e];
    OpsOfSnoc(r[..|r| - 1], e);
    CountsSnoc(OpsOf(r[..|r| - 1]), e.op, e.op.key);
  }
}
