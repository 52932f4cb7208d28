/** The shared/exclusive lock table with upgrade (ydb/ydb_lock.cpp). */
module YdbLock {
  import opened Options
  import opened YdbOp

  /** The identity of a `Ydb_Trans` object. */
  type Trans = nat

  datatype LockInfo = LockInfo(kind: LockKind, holders: seq<Trans>)

  type Locks = map<string, LockInfo>

  /** Removes the first occurrence of `t`, as both list-erasing loops of the source do. */
  function RemoveFirst(s: seq<Trans>, t: Trans): seq<Trans> {
    if s == [] then [] else if s[0] == t then s[1..] else [s[0]] + RemoveFirst(s[1..], t)
  }

  function ReadLocked(locks: Locks, t: Trans, k: string): (bool, Locks) {
    if k !in locks then (true, locks[k := LockInfo(ReadLock, [t])])
    else
      var info := locks[k];
      if info.kind.ReadLock? then (true, locks[k := info.(holders := info.holders + [t])])
      else (|info.holders| == 1 && t in info.holders, locks)
  }

  function WriteLocked(locks: Locks, t: Trans, k: string): (bool, Locks) {
    if k !in locks then (true, locks[k := LockInfo(WriteLock, [t])])
    else
      var info := locks[k];
      if info.kind.ReadLock? && |info.holders| == 1 && t in info.holders then
        (true, locks[k := LockInfo(WriteLock, RemoveFirst(info.holders, t) + [t])])
      else (false, locks)
  }

  function Locked(locks: Locks, t: Trans, op: Op): (bool, Locks) {
    if KindOf(op).ReadLock? then ReadLocked(locks, t, op.key) else WriteLocked(locks, t, op.key)
  }

  function Unlocked(locks: Locks, t: Trans, k: string): Locks {
    if k !in locks || t !in locks[k].holders then locks
    else
      var rest := RemoveFirst(locks[k].holders, t);
      if rest == [] then locks - {k} else locks[k := locks[k].(holders := rest)]
  }

  /** One `Unlock` per operation of the transaction, as `Commit` and `Rollback` call it. */
  function UnlockedAll(locks: Locks, t: Trans, ops: seq<Op>): Locks {
    if ops == [] then locks
    else Unlocked(UnlockedAll(locks, t, ops[..|ops| - 1]), t, ops[|ops| - 1].key)
  }

  /** No entry has an empty holder list, and a write lock has exactly one holder. */
  ghost predicate Sane(locks: Locks) {
    forall k :: k in locks ==>
      locks[k].holders != [] && (locks[k].kind.WriteLock? ==> |locks[k].holders| == 1)
  }

  /** How many times `t` appears among the holders of `k`. */
  function Mult(locks: Locks, k: string, t: Trans): nat {
    if k in locks then multiset(locks[k].holders)[t] else 0
  }

  predicate WriteHeld(locks: Locks, k: string, t: Trans) {
    k in locks && locks[k].kind.WriteLock? && Mult(locks, k, t) > 0
  }

  /** What the table records for `t` on `k` agrees with the operations `ops` that `t` was
      granted: its multiplicity never exceeds them, it holds `k` when it has any, and it
      has exactly one write-type operation when it holds the write lock and none otherwise.
      On a read-locked item every operation has been counted. */
  ghost predicate Accounts(locks: Locks, t: Trans, k: string, ops: seq<Op>) {
    && Mult(locks, k, t) <= CountKey(ops, k)
    && (CountKey(ops, k) > 0 ==> Mult(locks, k, t) > 0)
    && CountWrites(ops, k) == (if WriteHeld(locks, k, t) then 1 else 0)
    && (ReadLockedItem(locks, k) ==> Mult(locks, k, t) == CountKey(ops, k))
  }

  predicate ReadLockedItem(locks: Locks, k: string) {
    k in locks && locks[k].kind.ReadLock?
  }

  lemma {:induction false} RemoveFirstCounts(s: seq<Trans>, t: Trans)
    ensures t in s ==> multiset(s) == multiset(RemoveFirst(s, t)) + multiset{t}
    ensures t in s ==> |RemoveFirst(s, t)| == |s| - 1
    ensures t !in s ==> RemoveFirst(s, t) == s
  {
    if s != [] {
      assert s == [s[0]] + s[1..];
      if s[0] != t {
        RemoveFirstCounts(s[1..], t);
      }
    }
  }

  lemma RemoveFirstMult(s: seq<Trans>, t: Trans, u: Trans)
    ensures multiset(RemoveFirst(s, t))[u] == multiset(s)[u] - if u == t && t in s then 1 else 0
  {
    RemoveFirstCounts(s, t);
  }

  lemma ExclusiveMult(locks: Locks, k: string, t: Trans, u: Trans)
    requires Sane(locks) && WriteHeld(locks, k, t)
    ensures locks[k].holders == [t]
    ensures Mult(locks, k, u) == if u == t then 1 else 0
  {
    assert locks[k].holders[0] == t;
  }

  /** A refused request always finds the holders that refused it. */
  lemma RefusedMeansHeld(locks: Locks, t: Trans, op: Op)
    requires Sane(locks) && !Locked(locks, t, op).0
    ensures op.key in locks && locks[op.key].holders != []
    ensures Locked(locks, t, op).1 == locks
    ensures locks[op.key].kind.ReadLock? ==> !op.Read?
  {
  }

  /** What a granted request does to its own key. */
  lemma GrantOwn(locks: Locks, t: Trans, op: Op)
    requires Sane(locks) && Locked(locks, t, op).0
    ensures Sane(Locked(locks, t, op).1)
    ensures 1 <= Mult(Locked(locks, t, op).1, op.key, t) <= Mult(locks, op.key, t) + 1
    ensures !op.Read? ==> WriteHeld(Locked(locks, t, op).1, op.key, t) && !WriteHeld(locks, op.key, t)
    ensures op.Read? ==> (WriteHeld(Locked(locks, t, op).1, op.key, t) <==> WriteHeld(locks, op.key, t))
  {
    SoleHolder(locks, t, op.key);
  }

  /** A shared lock comes from shared locks, one more each time. */
  lemma GrantShared(locks: Locks, t: Trans, op: Op)
    requires Sane(locks) && Locked(locks, t, op).0 && ReadLockedItem(Locked(locks, t, op).1, op.key)
    ensures op.Read? && Mult(Locked(locks, t, op).1, op.key, t) == Mult(locks, op.key, t) + 1
    ensures op.key in locks ==> ReadLockedItem(locks, op.key)
  {
  }

  /** What it does to anybody else, or elsewhere. */
  lemma GrantOther(locks: Locks, t: Trans, op: Op, k: string, u: Trans)
    requires Sane(locks) && Locked(locks, t, op).0 && (u != t || k != op.key)
    ensures Mult(Locked(locks, t, op).1, k, u) == Mult(locks, k, u)
    ensures WriteHeld(Locked(locks, t, op).1, k, u) <==> WriteHeld(locks, k, u)
    ensures ReadLockedItem(Locked(locks, t, op).1, k) && k in locks ==> ReadLockedItem(locks, k)
  {
    SoleHolder(locks, t, op.key);
  }

  lemma SoleHolder(locks: Locks, t: Trans, k: string)
    ensures k in locks && |locks[k].holders| == 1 && t in locks[k].holders ==>
              locks[k].holders == [t] && RemoveFirst(locks[k].holders, t) == []
  {
  }

  lemma GrantEffect(locks: Locks, t: Trans, op: Op, k: string, u: Trans)
    requires Sane(locks) && Locked(locks, t, op).0
    ensures Sane(Locked(locks, t, op).1)
    ensures u != t || k != op.key ==> Mult(Locked(locks, t, op).1, k, u) == Mult(locks, k, u)
    ensures u != t || k != op.key ==> (WriteHeld(Locked(locks, t, op).1, k, u) <==> WriteHeld(locks, k, u))
    ensures 1 <= Mult(Locked(locks, t, op).1, op.key, t) <= Mult(locks, op.key, t) + 1
    ensures !op.Read? ==> WriteHeld(Locked(locks, t, op).1, op.key, t) && !WriteHeld(locks, op.key, t)
    ensures op.Read? ==> (WriteHeld(Locked(locks, t, op).1, op.key, t) <==> WriteHeld(locks, op.key, t))
    ensures ReadLockedItem(Locked(locks, t, op).1, op.key) ==>
              op.Read? && Mult(Locked(locks, t, op).1, op.key, t) == Mult(locks, op.key, t) + 1
    ensures ReadLockedItem(Locked(locks, t, op).1, k) && k in locks ==> ReadLockedItem(locks, k)
  {
    GrantOwn(locks, t, op);
    if ReadLockedItem(Locked(locks, t, op).1, op.key) { GrantShared(locks, t, op); }
    if u != t || k != op.key { GrantOther(locks, t, op, k, u); }
  }

  /** A granted request keeps the table sane and the accounts of every transaction. */
  lemma GrantKeepsAccounts(locks: Locks, t: Trans, op: Op, u: Trans, k: string, ops: seq<Op>)
    requires Sane(locks) && Locked(locks, t, op).0
    requires Accounts(locks, u, k, ops)
    ensures Sane(Locked(locks, t, op).1)
    ensures Accounts(Locked(locks, t, op).1, u, k, if u == t then ops + [op] else ops)
  {
    CountsSnoc(ops, op, k);
    GrantEffect(locks, t, op, k, u);
  }

  lemma UnlockEffect(locks: Locks, t: Trans, k: string, k': string, u: Trans)
    requires Sane(locks)
    ensures Sane(Unlocked(locks, t, k))
    ensures Mult(Unlocked(locks, t, k), k', u)
         == Mult(locks, k', u) - if u == t && k' == k && Mult(locks, k, t) > 0 then 1 else 0
    ensures u != t ==> (WriteHeld(Unlocked(locks, t, k), k', u) <==> WriteHeld(locks, k', u))
    ensures WriteHeld(Unlocked(locks, t, k), k', u) ==> WriteHeld(locks, k', u)
    ensures ReadLockedItem(Unlocked(locks, t, k), k') ==> ReadLockedItem(locks, k')
  {
    if k in locks && t in locks[k].holders {
      RemoveFirstCounts(locks[k].holders, t);
      UnlockMult(locks, t, k, k', u);
    }
  }

  lemma UnlockMult(locks: Locks, t: Trans, k: string, k': string, u: Trans)
    requires k in locks && t in locks[k].holders
    ensures Mult(locks, k, t) > 0
    ensures Mult(Unlocked(locks, t, k), k', u) == Mult(locks, k', u) - if u == t && k' == k then 1 else 0
    ensures k' in Unlocked(locks, t, k) ==> k' in locks && Unlocked(locks, t, k)[k'].kind == locks[k'].kind
    ensures k' in locks && k' !in Unlocked(locks, t, k) ==> k' == k && (u != t ==> Mult(locks, k', u) == 0)
  {
    var h := locks[k].holders;
    RemoveFirstMult(h, t, u);
    if RemoveFirst(h, t) == [] {
      assert multiset(RemoveFirst(h, t))[u] == 0;
    }
  }

  /** Unlocking once per operation takes `t` off every key it has operations on,
      up to that number, and touches nobody else. */
  lemma {:induction false} UnlockAllEffect(locks: Locks, t: Trans, ops: seq<Op>, k: string, u: Trans)
    requires Sane(locks)
    ensures Sane(UnlockedAll(locks, t, ops))
    ensures u != t ==> Mult(UnlockedAll(locks, t, ops), k, u) == Mult(locks, k, u)
    ensures Mult(UnlockedAll(locks, t, ops), k, t)
         == if Mult(locks, k, t) <= CountKey(ops, k) then 0 else Mult(locks, k, t) - CountKey(ops, k)
    ensures u != t ==> (WriteHeld(UnlockedAll(locks, t, ops), k, u) <==> WriteHeld(locks, k, u))
    ensures ReadLockedItem(UnlockedAll(locks, t, ops), k) ==> ReadLockedItem(locks, k)
  {
    if ops != [] {
      var front, op := ops[..|ops| - 1], ops[|ops| - 1];
      UnlockAllEffect(locks, t, front, k, u);
      UnlockAllEffect(locks, t, front, op.key, t);
      UnlockEffect(UnlockedAll(locks, t, front), t, op.key, k, u);
      UnlockEffect(UnlockedAll(locks, t, front), t, op.key, k, t);
    }
  }

  lemma {:induction false} UnlockAllOfNonHolder(locks: Locks, t: Trans, ops: seq<Op>)
    requires forall k :: Mult(locks, k, t) == 0
    ensures UnlockedAll(locks, t, ops) == locks
  {
    if ops != [] {
      UnlockAllOfNonHolder(locks, t, ops[..|ops| - 1]);
      var k := ops[|ops| - 1].key;
      assert Mult(locks, k, t) == 0;
    }
  }

  /** `Ydb_LockInfo::remove_transaction` and `Ydb_DeadlockTree::RemoveFromList`. */
  method RemoveTransaction(list: seq<Trans>, t: Trans) returns (found: bool, rest: seq<Trans>)
    ensures found <==> t in list
    ensures rest == RemoveFirst(list, t)
  {
    var i := 0;
    while i < |list| && list[i] != t
      invariant 0 <= i <= |list|
      invariant t !in list[..i]
    {
      i := i + 1;
    }
    RemoveAt(list, t, i);
    if i < |list| {
      return true, list[..i] + list[i + 1..];
    }
    assert list == list[..i];
    return false, list;
  }

  lemma {:induction false} RemoveAt(list: seq<Trans>, t: Trans, i: nat)
    requires i <= |list| && t !in list[..i]
    requires i < |list| ==> list[i] == t
    ensures RemoveFirst(list, t) == if i < |list| then list[..i] + list[i + 1..] else list
  {
    if i > 0 {
      assert list[0] in list[..i];
      assert forall x :: x in list[1..][..i - 1] ==> x in list[..i];
      RemoveAt(list[1..], t, i - 1);
    }
  }

  class LockTable {
    var lockMap: Locks

    constructor ()
      ensures lockMap == map[]
    {
      lockMap := map[];
    }

    method Lock(t: Trans, op: Op) returns (granted: bool)
      modifies this
      ensures (granted, lockMap) == Locked(old(lockMap), t, op)
    {
      if KindOf(op).ReadLock? {
        granted := ReadLock(t, op.key);
      } else {
        granted := WriteLock(t, op.key);
      }
    }

    method ReadLock(t: Trans, item: string) returns (granted: bool)
      modifies this
      ensures (granted, lockMap) == ReadLocked(old(lockMap), t, item)
    {
      if item !in lockMap {
        lockMap := lockMap[item := LockInfo(LockKind.ReadLock, [t])];
        return true;
      }
      var info := lockMap[item];
      if info.kind.ReadLock? {
        lockMap := lockMap[item := info.(holders := info.holders + [t])];
        return true;
      }
      return |info.holders| == 1 && t in info.holders;
    }

    method WriteLock(t: Trans, item: string) returns (granted: bool)
      modifies this
      ensures (granted, lockMap) == WriteLocked(old(lockMap), t, item)
    {
      if item !in lockMap {
        lockMap := lockMap[item := LockInfo(LockKind.WriteLock, [t])];
        return true;
      }
      var info := lockMap[item];
      if info.kind.ReadLock? && |info.holders| == 1 {
        var found, rest := RemoveTransaction(info.holders, t);
        if found {
          lockMap := lockMap[item := LockInfo(LockKind.WriteLock, rest + [t])];
          return true;
        }
      }
      return false;
    }

    method GetLockHolders(item: string) returns (holders: Option<seq<Trans>>)
      ensures holders == if item in lockMap then Some(lockMap[item].holders) else None
    {
      return if item in lockMap then Some(lockMap[item].holders) else None;
    }

    method Unlock(t: Trans, item: string) returns (released: bool)
      modifies this
      ensures lockMap == Unlocked(old(lockMap), t, item)
      ensures released <==> old(Mult(lockMap, item, t)) > 0
    {
      if item !in lockMap {
        return false;
      }
      var info := lockMap[item];
      var found, rest := RemoveTransaction(info.holders, t);
      if !found {
        return false;
      }
      if |rest| == 0 {
        lockMap := lockMap - {item};
      } else {
        lockMap := lockMap[item := info.(holders := rest)];
      }
      return true;
    }
  }
}
