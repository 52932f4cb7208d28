/** The blocked-by / blocks tables of `Ydb_DeadlockTree` (ydb/ydb_sched.cpp:94-174).

    `IsBlockedBy` swaps the roles of its arguments in the recursive call, so it does not
    look for a path between them.  This module says exactly what it looks for, when it
    returns, and what the two tables are nevertheless good for. */
module YdbDeadlock {
  import opened Options
  import opened YdbLock

  type Graph = map<Trans, seq<Trans>>

  datatype Tree = Tree(blockedBy: Graph, blocks: Graph)

  function Successors(g: Graph, x: Trans): seq<Trans> {
    if x in g then g[x] else []
  }

  /** How often the table records the pair. */
  function Edges(g: Graph, x: Trans, y: Trans): nat {
    multiset(Successors(g, x))[y]
  }

  /** The recursive query, with the stack depth it may use; `None` means that it needs more. */
  function IsBlockedBy(g: Graph, existing: Trans, newTrans: Trans, depth: nat): Option<bool>
    decreases depth, 0
  {
    if depth == 0 then None
    else ScanBlockers(g, Successors(g, existing), newTrans, depth - 1)
  }

  function ScanBlockers(g: Graph, list: seq<Trans>, newTrans: Trans, depth: nat): Option<bool>
    decreases depth, 1 + |list|
  {
    if list == [] then Some(false)
    else if list[0] == newTrans then Some(true)
    else
      match IsBlockedBy(g, newTrans, list[0], depth)
      case None => None
      case Some(true) => Some(true)
      case Some(false) => ScanBlockers(g, list[1..], newTrans, depth)
  }

  /** The query returns: some stack is deep enough. */
  ghost predicate Returns(g: Graph, existing: Trans, newTrans: Trans) {
    exists depth: nat :: IsBlockedBy(g, existing, newTrans, depth).Some?
  }

  /** `z` is reached from `x` by exactly `n` blocked-by edges. */
  ghost predicate Walk(g: Graph, x: Trans, n: nat, z: Trans)
    decreases n
  {
    if n == 0 then x == z else exists w :: w in Successors(g, x) && Walk(g, w, n - 1, z)
  }

  lemma WalkStep(g: Graph, x: Trans, w: Trans, n: nat, z: Trans)
    requires w in Successors(g, x) && Walk(g, w, n, z)
    ensures Walk(g, x, n + 1, z)
  {
    assert Walk(g, w, n + 1 - 1, z);
  }

  ghost predicate MeetsAt(g: Graph, x: Trans, y: Trans, n: nat, z: Trans) {
    Walk(g, x, n + 1, z) && (Walk(g, y, n, z) || Walk(g, y, n + 1, z))
  }

  /** `x` and `y` reach a common transaction, `x` in as many steps as `y` or in one more. */
  ghost predicate Meets(g: Graph, x: Trans, y: Trans) {
    exists n: nat, z :: MeetsAt(g, x, y, n, z)
  }

  lemma AdjacentMeets(g: Graph, x: Trans, y: Trans)
    requires y in Successors(g, x)
    ensures Meets(g, x, y)
  {
    WalkStep(g, x, y, 0, y);
    assert MeetsAt(g, x, y, 0, y);
  }

  /** What `IsBlockedBy` decides, for every graph: whenever it returns, it returns whether
      the two transactions meet, not whether one waits for the other. */
  lemma {:induction false} IsBlockedByDecidesMeets(g: Graph, x: Trans, y: Trans, depth: nat)
    requires IsBlockedBy(g, x, y, depth).Some?
    ensures IsBlockedBy(g, x, y, depth).value <==> Meets(g, x, y)
    decreases depth, 0
  {
    var list := Successors(g, x);
    ScanDecides(g, list, y, depth - 1);
    if IsBlockedBy(g, x, y, depth).value {
      var w :| w in list && (w == y || Meets(g, y, w));
      if w == y {
        AdjacentMeets(g, x, y);
      } else {
        MeetsOneStepBack(g, x, y, w);
      }
    } else if Meets(g, x, y) {
      var n: nat, z :| MeetsAt(g, x, y, n, z);
      var w :| w in list && Walk(g, w, n, z);
      assert w != y && !Meets(g, y, w);
      MeetsOneStepOn(g, x, y, n, z, w);
    }
  }

  lemma {:induction false} ScanDecides(g: Graph, list: seq<Trans>, y: Trans, depth: nat)
    requires ScanBlockers(g, list, y, depth).Some?
    ensures ScanBlockers(g, list, y, depth).value <==> exists w :: w in list && (w == y || Meets(g, y, w))
    decreases depth, 1 + |list|
  {
    assert list != [] ==> list[0] in list;
    if list != [] && list[0] != y {
      IsBlockedByDecidesMeets(g, y, list[0], depth);
      if IsBlockedBy(g, y, list[0], depth) == Some(false) {
        ScanDecides(g, list[1..], y, depth);
        assert forall w :: w in list <==> w == list[0] || w in list[1..];
      }
    }
  }

  lemma MeetsOneStepBack(g: Graph, x: Trans, y: Trans, w: Trans)
    requires w in Successors(g, x) && Meets(g, y, w)
    ensures Meets(g, x, y)
  {
    var n: nat, z :| MeetsAt(g, y, w, n, z);
    if Walk(g, w, n, z) {
      assert Walk(g, x, n + 1, z);
      assert MeetsAt(g, x, y, n, z);
    } else {
      assert Walk(g, x, n + 2, z);
      assert MeetsAt(g, x, y, n + 1, z);
    }
  }

  lemma MeetsOneStepOn(g: Graph, x: Trans, y: Trans, n: nat, z: Trans, w: Trans)
    requires MeetsAt(g, x, y, n, z) && w in Successors(g, x) && Walk(g, w, n, z)
    ensures w == y || Meets(g, y, w)
  {
    if Walk(g, y, n + 1, z) {
      assert MeetsAt(g, y, w, n, z);
    } else if n > 0 {
      assert MeetsAt(g, y, w, n - 1, z);
    }
  }

  // ----- When the query returns ---------------------------------------------

  ghost predicate HasWalk(g: Graph, x: Trans, n: nat) {
    exists z :: Walk(g, x, n, z)
  }

  /** The query has `depth` nested calls to make before it can stop on its own. */
  ghost predicate Deep(g: Graph, x: Trans, y: Trans, depth: nat)
    decreases depth
  {
    depth == 0 || exists w :: w in Successors(g, x) && Deep(g, y, w, depth - 1)
  }

  /** Unless it finds a meeting, the query needs more stack exactly when it is that deep. */
  lemma {:induction false} NeedsMoreIffDeep(g: Graph, x: Trans, y: Trans, depth: nat)
    requires !Meets(g, x, y)
    ensures IsBlockedBy(g, x, y, depth) == if Deep(g, x, y, depth) then None else Some(false)
    decreases depth, 0
  {
    if depth > 0 {
      forall w | w in Successors(g, x)
        ensures w != y && !Meets(g, y, w)
      {
        NoMeetingNearby(g, x, y, w);
      }
      ScanNeedsMore(g, Successors(g, x), y, depth - 1);
    }
  }

  lemma NoMeetingNearby(g: Graph, x: Trans, y: Trans, w: Trans)
    requires !Meets(g, x, y) && w in Successors(g, x)
    ensures w != y && !Meets(g, y, w)
  {
    if w == y {
      AdjacentMeets(g, x, y);
    } else if Meets(g, y, w) {
      MeetsOneStepBack(g, x, y, w);
    }
  }

  lemma {:induction false} ScanNeedsMore(g: Graph, list: seq<Trans>, y: Trans, depth: nat)
    requires forall w :: w in list ==> w != y && !Meets(g, y, w)
    ensures ScanBlockers(g, list, y, depth)
         == if exists w :: w in list && Deep(g, y, w, depth) then None else Some(false)
    decreases depth, 1 + |list|
  {
    if list != [] {
      assert list[0] in list;
      assert forall w :: w in list <==> w == list[0] || w in list[1..];
      NeedsMoreIffDeep(g, y, list[0], depth);
      ScanNeedsMore(g, list[1..], y, depth);
    }
  }

  /** The nesting follows a walk from `x` and one from `y` in turn. */
  lemma {:induction false} DeepIsTwoWalks(g: Graph, x: Trans, y: Trans, depth: nat)
    ensures Deep(g, x, y, depth) <==> HasWalk(g, x, (depth + 1) / 2) && HasWalk(g, y, depth / 2)
    decreases depth
  {
    if depth == 0 {
      assert Walk(g, x, 0, x) && Walk(g, y, 0, y);
    } else {
      var d := depth - 1;
      forall w
        ensures Deep(g, y, w, d) <==> HasWalk(g, y, depth / 2) && HasWalk(g, w, d / 2)
      {
        DeepIsTwoWalks(g, y, w, d);
      }
      WalkFirst(g, x, d / 2);
    }
  }

  lemma WalkFirst(g: Graph, x: Trans, n: nat)
    ensures HasWalk(g, x, n + 1) <==> exists w :: w in Successors(g, x) && HasWalk(g, w, n)
  {
    if HasWalk(g, x, n + 1) {
      var z :| Walk(g, x, n + 1, z);
      var w :| w in Successors(g, x) && Walk(g, w, n, z);
      assert HasWalk(g, w, n);
    }
    if w :| w in Successors(g, x) && HasWalk(g, w, n) {
      var z :| Walk(g, w, n, z);
      WalkStep(g, x, w, n, z);
    }
  }

  /** When the two transactions do not meet, the query returns if and only if one of them has
      no blocked-by walk of some length: no cycle can be reached from both. */
  lemma ReturnsIffAWalkEnds(g: Graph, x: Trans, y: Trans)
    requires !Meets(g, x, y)
    ensures Returns(g, x, y) <==> exists n: nat :: !HasWalk(g, x, n) || !HasWalk(g, y, n)
  {
    if Returns(g, x, y) {
      var depth: nat :| IsBlockedBy(g, x, y, depth).Some?;
      NeedsMoreIffDeep(g, x, y, depth);
      DeepIsTwoWalks(g, x, y, depth);
      assert !HasWalk(g, x, (depth + 1) / 2) || !HasWalk(g, y, depth / 2);
    }
    if n: nat :| !HasWalk(g, x, n) || !HasWalk(g, y, n) {
      DeepIsTwoWalks(g, x, y, 2 * n);
      NeedsMoreIffDeep(g, x, y, 2 * n);
      assert (2 * n + 1) / 2 == n && 2 * n / 2 == n;
      assert IsBlockedBy(g, x, y, 2 * n).Some?;
    }
  }

  // ----- ...and when it finds a meeting on its way --------------------------

  lemma {:induction false} MoreStackSameAnswer(g: Graph, x: Trans, y: Trans, depth: nat, more: nat)
    requires depth <= more && IsBlockedBy(g, x, y, depth).Some?
    ensures IsBlockedBy(g, x, y, more) == IsBlockedBy(g, x, y, depth)
    decreases depth, 0
  {
    ScanMoreStack(g, Successors(g, x), y, depth - 1, more - 1);
  }

  lemma {:induction false} ScanMoreStack(g: Graph, list: seq<Trans>, y: Trans, depth: nat, more: nat)
    requires depth <= more && ScanBlockers(g, list, y, depth).Some?
    ensures ScanBlockers(g, list, y, more) == ScanBlockers(g, list, y, depth)
    decreases depth, 1 + |list|
  {
    if list != [] && list[0] != y {
      MoreStackSameAnswer(g, y, list[0], depth, more);
      if IsBlockedBy(g, y, list[0], depth) == Some(false) {
        ScanMoreStack(g, list[1..], y, depth, more);
      }
    }
  }

  /** The query for `x` and `y` passes over the entry `w` of the list of `x`: it is not `y`,
      and asking about it comes to a negative answer. */
  ghost predicate PassedOver(g: Graph, y: Trans, w: Trans) {
    w != y && !Meets(g, y, w) && exists n: nat :: !HasWalk(g, y, n) || !HasWalk(g, w, n)
  }

  /** With `k` nested calls the query gets to a meeting: it passes over the entries before the
      one that leads there. */
  ghost predicate Found(g: Graph, x: Trans, y: Trans, k: nat)
    decreases k, 0
  {
    k > 0 && FoundIn(g, Successors(g, x), y, k)
  }

  ghost predicate GetsToMeeting(g: Graph, x: Trans, y: Trans) {
    exists k: nat :: Found(g, x, y, k)
  }

  ghost predicate FoundIn(g: Graph, list: seq<Trans>, y: Trans, k: nat)
    requires k > 0
    decreases k - 1, 1 + |list|
  {
    list != [] &&
    (list[0] == y || Found(g, y, list[0], k - 1) || (PassedOver(g, y, list[0]) && FoundIn(g, list[1..], y, k)))
  }

  lemma {:induction false} TrueIsFound(g: Graph, x: Trans, y: Trans, depth: nat)
    requires IsBlockedBy(g, x, y, depth) == Some(true)
    ensures Found(g, x, y, depth)
    decreases depth, 0
  {
    ScanTrueIsFound(g, Successors(g, x), y, depth - 1);
  }

  lemma {:induction false} ScanTrueIsFound(g: Graph, list: seq<Trans>, y: Trans, depth: nat)
    requires ScanBlockers(g, list, y, depth) == Some(true)
    ensures FoundIn(g, list, y, depth + 1)
    decreases depth, 1 + |list|
  {
    if list[0] != y {
      if IsBlockedBy(g, y, list[0], depth) == Some(true) {
        TrueIsFound(g, y, list[0], depth);
      } else {
        IsBlockedByDecidesMeets(g, y, list[0], depth);
        assert Returns(g, y, list[0]);
        ReturnsIffAWalkEnds(g, y, list[0]);
        ScanTrueIsFound(g, list[1..], y, depth);
      }
    }
  }

  lemma {:induction false} FoundIsTrue(g: Graph, x: Trans, y: Trans, k: nat) returns (depth: nat)
    requires Found(g, x, y, k)
    ensures IsBlockedBy(g, x, y, depth) == Some(true)
    decreases k, 0, 0
  {
    var d := FoundInIsTrue(g, Successors(g, x), y, k);
    depth := d + 1;
  }

  lemma {:induction false} FoundInIsTrue(g: Graph, list: seq<Trans>, y: Trans, k: nat) returns (depth: nat)
    requires k > 0 && FoundIn(g, list, y, k)
    ensures ScanBlockers(g, list, y, depth) == Some(true)
    decreases k - 1, 1, |list|
  {
    if list[0] == y {
      depth := 0;
    } else if Found(g, y, list[0], k - 1) {
      depth := FoundIsTrue(g, y, list[0], k - 1);
    } else {
      ReturnsIffAWalkEnds(g, y, list[0]);
      var a: nat :| IsBlockedBy(g, y, list[0], a).Some?;
      IsBlockedByDecidesMeets(g, y, list[0], a);
      var b := FoundInIsTrue(g, list[1..], y, k);
      depth := if a < b then b else a;
      MoreStackSameAnswer(g, y, list[0], a, depth);
      ScanMoreStack(g, list[1..], y, b, depth);
    }
  }

  /** Exactly when the query returns, for every graph: if the two meet, it must get to a meeting
      without first following an endless pair of walks; if they do not, one of them must have
      no walk of some length. */
  lemma ReturnsExactly(g: Graph, x: Trans, y: Trans)
    ensures Returns(g, x, y) <==>
      if Meets(g, x, y) then GetsToMeeting(g, x, y)
      else exists n: nat :: !HasWalk(g, x, n) || !HasWalk(g, y, n)
  {
    if !Meets(g, x, y) {
      ReturnsIffAWalkEnds(g, x, y);
    } else if depth: nat :| IsBlockedBy(g, x, y, depth).Some? {
      IsBlockedByDecidesMeets(g, x, y, depth);
      TrueIsFound(g, x, y, depth);
      assert GetsToMeeting(g, x, y);
    } else if k: nat :| Found(g, x, y, k) {
      var depth := FoundIsTrue(g, x, y, k);
    }
  }

  /** A requester that waits for nobody: the query sees direct waits only. */
  lemma DirectWaitsOnly(g: Graph, x: Trans, y: Trans)
    requires Successors(g, y) == []
    ensures Meets(g, x, y) <==> y in Successors(g, x)
  {
    if Meets(g, x, y) {
      var n: nat, z :| MeetsAt(g, x, y, n, z);
      assert n == 0 && z == y && Walk(g, x, 1, z);
      var w :| w in Successors(g, x) && Walk(g, w, 0, z);
    }
    if y in Successors(g, x) { AdjacentMeets(g, x, y); }
  }

  /** On an acyclic graph the query always returns. */
  lemma {:induction false} ReturnsWhenAcyclic(g: Graph, rank: Trans -> nat, x: Trans, y: Trans, depth: nat)
    requires forall a, b :: b in Successors(g, a) ==> rank(b) < rank(a)
    requires depth > rank(x) + rank(y)
    ensures IsBlockedBy(g, x, y, depth).Some?
    decreases depth, 0
  {
    ScanReturns(g, rank, x, Successors(g, x), y, depth - 1);
  }

  lemma {:induction false} ScanReturns(g: Graph, rank: Trans -> nat, x: Trans, list: seq<Trans>, y: Trans, depth: nat)
    requires forall a, b :: b in Successors(g, a) ==> rank(b) < rank(a)
    requires forall w :: w in list ==> w in Successors(g, x)
    requires depth >= rank(x) + rank(y)
    ensures ScanBlockers(g, list, y, depth).Some?
    decreases depth, 1 + |list|
  {
    if list != [] && list[0] != y {
      ReturnsWhenAcyclic(g, rank, y, list[0], depth);
      ScanReturns(g, rank, x, list[1..], y, depth);
    }
  }

  /** Three transactions waiting in a ring: 1 for 2, 2 for 3, 3 for 1. */
  const RING: Graph := map[1 := [2], 2 := [3], 3 := [1]]

  /** The closing edge of a ring of three is not noticed... */
  lemma RingOfThreeIsMissed()
    ensures IsBlockedBy(map[1 := [2], 2 := [3]], 1, 3, 2) == Some(false)
    ensures Walk(map[1 := [2], 2 := [3]], 1, 2, 3)
  {
    var g: Graph := map[1 := [2], 2 := [3]];
    assert IsBlockedBy(g, 3, 2, 1) == ScanBlockers(g, [], 2, 0) == Some(false);
    assert ScanBlockers(g, [2], 3, 1) == ScanBlockers(g, [], 3, 1);
    WalkStep(g, 2, 3, 0, 3);
    WalkStep(g, 1, 2, 1, 3);
  }

  /** ...and once the ring exists, asking the same question again never returns. */
  lemma {:induction false} RingNeverReturns(depth: nat)
    ensures IsBlockedBy(RING, 1, 3, depth) == None
    ensures IsBlockedBy(RING, 3, 2, depth) == None
    ensures IsBlockedBy(RING, 2, 1, depth) == None
  {
    if depth > 0 {
      RingNeverReturns(depth - 1);
    }
  }

  /** A dependency is refused although nothing waits for the new transaction:
      both merely wait for the same third one. */
  lemma FalseAlarm()
    ensures IsBlockedBy(map[1 := [3], 2 := [3]], 1, 2, 2) == Some(true)
    ensures forall n: nat :: !Walk(map[1 := [3], 2 := [3]], 1, n, 2)
  {
    var g: Graph := map[1 := [3], 2 := [3]];
    assert IsBlockedBy(g, 2, 3, 1) == ScanBlockers(g, [3], 3, 0) == Some(true);
    forall n: nat
      ensures !Walk(g, 1, n, 2)
    {
      assert n > 0 ==> !Walk(g, 3, n - 1, 2);
    }
  }

  function Pushed(g: Graph, x: Trans, y: Trans): Graph {
    g[x := Successors(g, x) + [y]]
  }

  function Added(tree: Tree, existing: Trans, newTrans: Trans): Tree {
    Tree(Pushed(tree.blockedBy, newTrans, existing), Pushed(tree.blocks, existing, newTrans))
  }

  function Erased(g: Graph, list: seq<Trans>, t: Trans): Graph {
    if list == [] then g
    else
      var g', u := Erased(g, list[..|list| - 1], t), list[|list| - 1];
      if u in g' then g'[u := RemoveFirst(g'[u], t)] else g'
  }

  function Removed(tree: Tree, t: Trans): Tree {
    if t !in tree.blocks then tree
    else Tree(Erased(tree.blockedBy, tree.blocks[t], t), tree.blocks - {t})
  }

  /** The tables are exact inverses of each other, no two distinct transactions are recorded
      as directly blocking each other, and whoever has a `blocks` entry blocks somebody. */
  ghost predicate Consistent(tree: Tree) {
    && (forall x, y :: Edges(tree.blockedBy, x, y) == Edges(tree.blocks, y, x))
    && (forall x, y :: x != y && Edges(tree.blockedBy, x, y) > 0 ==> Edges(tree.blockedBy, y, x) == 0)
    && (forall x :: x in tree.blocks ==> tree.blocks[x] != [])
  }

  lemma PushedEdges(g: Graph, x: Trans, y: Trans, a: Trans, b: Trans)
    ensures Edges(Pushed(g, x, y), a, b) == Edges(g, a, b) + if a == x && b == y then 1 else 0
  {
  }

  lemma DirectBlockerMeets(g: Graph, x: Trans, y: Trans)
    requires Edges(g, x, y) > 0
    ensures Meets(g, x, y)
  {
    assert y in multiset(Successors(g, x));
    AdjacentMeets(g, x, y);
  }

  lemma AddedEdges(tree: Tree, existing: Trans, newTrans: Trans, x: Trans, y: Trans)
    ensures
      var more := if x == newTrans && y == existing then 1 else 0;
      var next := Added(tree, existing, newTrans);
      && Edges(next.blockedBy, x, y) == Edges(tree.blockedBy, x, y) + more
      && Edges(next.blocks, y, x) == Edges(tree.blocks, y, x) + more
  {
    PushedEdges(tree.blockedBy, newTrans, existing, x, y);
    PushedEdges(tree.blocks, existing, newTrans, y, x);
  }

  lemma AddKeepsConsistent(tree: Tree, existing: Trans, newTrans: Trans)
    requires Consistent(tree) && !Meets(tree.blockedBy, existing, newTrans)
    ensures Consistent(Added(tree, existing, newTrans))
  {
    var next := Added(tree, existing, newTrans);
    if Edges(tree.blockedBy, existing, newTrans) > 0 {
      DirectBlockerMeets(tree.blockedBy, existing, newTrans);
    }
    forall x, y ensures Edges(next.blockedBy, x, y) == Edges(next.blocks, y, x) {
      AddedEdges(tree, existing, newTrans, x, y);
    }
    forall x, y | x != y && Edges(next.blockedBy, x, y) > 0 ensures Edges(next.blockedBy, y, x) == 0 {
      AddedEdges(tree, existing, newTrans, x, y);
      AddedEdges(tree, existing, newTrans, y, x);
    }
  }

  lemma {:induction false} ErasedEdges(g: Graph, list: seq<Trans>, t: Trans, u: Trans, x: Trans)
    ensures Erased(g, list, t).Keys == g.Keys
    ensures x != t ==> Edges(Erased(g, list, t), u, x) == Edges(g, u, x)
    ensures Edges(Erased(g, list, t), u, t)
         == if Edges(g, u, t) <= multiset(list)[u] then 0 else Edges(g, u, t) - multiset(list)[u]
  {
    if list != [] {
      var front, v := list[..|list| - 1], list[|list| - 1];
      assert list == front + [v];
      ErasedEdges(g, front, t, u, x);
      var g' := Erased(g, front, t);
      if v in g' {
        RemoveFirstMult(g'[v], t, x);
        RemoveFirstMult(g'[v], t, t);
      }
    }
  }

  /** `Remove(t)` leaves nobody recorded as blocked by `t`, forgets nothing else, keeps the
      tables inverse, and never meets a waiter without a list. */
  lemma RemoveKeepsConsistent(tree: Tree, t: Trans)
    requires Consistent(tree)
    ensures Consistent(Removed(tree, t))
    ensures forall x, y :: Edges(Removed(tree, t).blockedBy, x, y) == if y == t then 0 else Edges(tree.blockedBy, x, y)
    ensures forall u :: u in Successors(tree.blocks, t) ==> u in tree.blockedBy
  {
    var list := Successors(tree.blocks, t);
    forall x, y
      ensures Edges(Removed(tree, t).blockedBy, x, y) == if y == t then 0 else Edges(tree.blockedBy, x, y)
      ensures Edges(Removed(tree, t).blocks, y, x) == if y == t then 0 else Edges(tree.blocks, y, x)
    {
      ErasedEdges(tree.blockedBy, list, t, x, y);
      assert Edges(tree.blockedBy, x, t) == Edges(tree.blocks, t, x);
    }
    forall u | u in list
      ensures u in tree.blockedBy
    {
      assert u in multiset(list);
      assert Edges(tree.blockedBy, u, t) > 0;
    }
  }

  lemma BlockerBlocksSomebody(tree: Tree, t: Trans)
    requires Consistent(tree) && t in tree.blocks
    ensures exists x :: Edges(tree.blockedBy, x, t) > 0
  {
    var u := tree.blocks[t][0];
    assert u in multiset(tree.blocks[t]);
    assert Edges(tree.blockedBy, u, t) == Edges(tree.blocks, t, u);
  }

  /** Removing a transaction that blocks nobody changes nothing. */
  lemma RemoveOfNonBlocker(tree: Tree, t: Trans)
    requires Consistent(tree) && forall x :: Edges(tree.blockedBy, x, t) == 0
    ensures Removed(tree, t) == tree
  {
    if t in tree.blocks {
      BlockerBlocksSomebody(tree, t);
    }
  }

  class DeadlockTree {
    var blockedBy: Graph
    var blocks: Graph

    ghost function View(): Tree
      reads this
    {
      Tree(blockedBy, blocks)
    }

    constructor ()
      ensures View() == Tree(map[], map[])
    {
      blockedBy, blocks := map[], map[];
    }

    /** `depth` is a stack on which the query returns. */
    method AddDependency(existing: Trans, newTrans: Trans, depth: nat) returns (ok: bool)
      requires IsBlockedBy(blockedBy, existing, newTrans, depth).Some?
      modifies this
      ensures ok <==> !Meets(old(blockedBy), existing, newTrans)
      ensures View() == if ok then Added(old(View()), existing, newTrans) else old(View())
    {
      IsBlockedByDecidesMeets(blockedBy, existing, newTrans, depth);
      if IsBlockedBy(blockedBy, existing, newTrans, depth).value {
        return false;
      }
      blockedBy := blockedBy[newTrans := (if newTrans in blockedBy then blockedBy[newTrans] else []) + [existing]];
      blocks := blocks[existing := (if existing in blocks then blocks[existing] else []) + [newTrans]];
      return true;
    }

    method Remove(t: Trans)
      requires Consistent(View())
      modifies this
      ensures View() == Removed(old(View()), t)
    {
      RemoveKeepsConsistent(View(), t);
      if t !in blocks {
        return;
      }
      var list := blocks[t];
      var i := 0;
      while i < |list|
        invariant 0 <= i <= |list|
        invariant blocks == old(blocks)
        invariant blockedBy == Erased(old(blockedBy), list[..i], t)
        invariant blockedBy.Keys == old(blockedBy).Keys
      {
        assert list[..i + 1][..i] == list[..i];
        assert list[i] in blockedBy;  // the assertion at ydb/ydb_sched.cpp:158
        var found, rest := RemoveTransaction(blockedBy[list[i]], t);
        blockedBy := blockedBy[list[i] := rest];
        i := i + 1;
      }
      assert list[..i] == list;
      blocks := blocks - {t};
    }
  }
}
