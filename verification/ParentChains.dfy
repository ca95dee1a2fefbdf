// Chains of parents in a project: from an entry to its parent, to that one's parent, and so on.
module ParentChains {
  import opened Wrappers
  import opened ProjectOps

  type Parents = map<EntryId, Option<EntryId>>

  function Up(par: Parents, x: EntryId): Option<EntryId> { if x in par then par[x] else None }

  function Ancestor(par: Parents, x: EntryId, n: nat): Option<EntryId> {
    if n == 0 then Some(x)
    else
      match Ancestor(par, x, n - 1)
      case None => None
      case Some(y) => Up(par, y)
  }

  ghost predicate IsAncestor(par: Parents, x: EntryId, n: nat, y: EntryId) { Ancestor(par, x, n) == Some(y) }

  ghost predicate Reaches(par: Parents, x: EntryId, y: EntryId) { exists n: nat :: IsAncestor(par, x, n, y) }

  ghost predicate ReachesAny(par: Parents, x: EntryId, ys: set<EntryId>) { exists y :: y in ys && Reaches(par, x, y) }

  // The chain comes back to where it started.
  ghost predicate OnCycle(par: Parents, x: EntryId) { exists n: nat :: n > 0 && IsAncestor(par, x, n, x) }

  ghost predicate Forest(par: Parents) { forall x :: !OnCycle(par, x) }

  lemma {:induction false} AncestorAdd(par: Parents, x: EntryId, m: nat, y: EntryId, n: nat)
    requires IsAncestor(par, x, m, y)
    ensures Ancestor(par, x, m + n) == Ancestor(par, y, n)
  {
    if n > 0 {
      AncestorAdd(par, x, m, y, n - 1);
    }
  }

  lemma {:induction false} AncestorNone(par: Parents, x: EntryId, m: nat, n: nat)
    requires m <= n && Ancestor(par, x, m).None?
    ensures Ancestor(par, x, n).None?
    decreases n
  {
    if m < n {
      AncestorNone(par, x, m, n - 1);
    }
  }

  lemma {:induction false} AncestorSome(par: Parents, x: EntryId, m: nat, n: nat)
    requires m <= n && Ancestor(par, x, n).Some?
    ensures Ancestor(par, x, m).Some?
  {
    if Ancestor(par, x, m).None? {
      AncestorNone(par, x, m, n);
    }
  }

  lemma ReachesTransitive(par: Parents, x: EntryId, y: EntryId, z: EntryId)
    requires Reaches(par, x, y) && Reaches(par, y, z)
    ensures Reaches(par, x, z)
  {
    var m: nat :| IsAncestor(par, x, m, y);
    var n: nat :| IsAncestor(par, y, n, z);
    AncestorAdd(par, x, m, y, n);
    assert IsAncestor(par, x, m + n, z);
  }

  // A set that holds the parent of each of its entries, none of them a root, is never left.
  ghost predicate Circular(par: Parents, vs: set<EntryId>) {
    forall v | v in vs :: Up(par, v).Some? && Up(par, v).value in vs
  }

  lemma {:induction false} CircularStays(par: Parents, vs: set<EntryId>, x: EntryId, n: nat)
    requires Circular(par, vs) && x in vs
    ensures Ancestor(par, x, n).Some? && Ancestor(par, x, n).value in vs
  {
    if n > 0 {
      CircularStays(par, vs, x, n - 1);
    }
  }

  // A set that no parent edge leaves, except to a root.
  ghost predicate Closed(par: Parents, vs: set<EntryId>) {
    forall v | v in vs && Up(par, v).Some? :: Up(par, v).value in vs
  }

  lemma {:induction false} ClosedStays(par: Parents, vs: set<EntryId>, x: EntryId, n: nat)
    requires Closed(par, vs) && x in vs && Ancestor(par, x, n).Some?
    ensures Ancestor(par, x, n).value in vs
  {
    if n > 0 {
      AncestorSome(par, x, n - 1, n);
      ClosedStays(par, vs, x, n - 1);
    }
  }

  // ----- A walk along a chain -----

  // path lists x and its ancestors in order, all different, and next is what comes behind them.
  ghost predicate IsWalk(par: Parents, x: EntryId, path: seq<EntryId>, next: Option<EntryId>) {
    && (forall i | 0 <= i < |path| :: IsAncestor(par, x, i, path[i]))
    && Ancestor(par, x, |path|) == next
    && (forall i, j | 0 <= i < j < |path| :: path[i] != path[j])
  }

  lemma WalkStep(par: Parents, x: EntryId, path: seq<EntryId>, y: EntryId)
    requires IsWalk(par, x, path, Some(y)) && y !in path
    ensures IsWalk(par, x, path + [y], Up(par, y))
  {
  }

  lemma WalkEdge(par: Parents, x: EntryId, path: seq<EntryId>, next: Option<EntryId>, i: nat)
    requires IsWalk(par, x, path, next) && i < |path|
    ensures Up(par, path[i]) == if i + 1 < |path| then Some(path[i + 1]) else next
  {
    assert IsAncestor(par, x, i, path[i]);
    assert Ancestor(par, x, i + 1) == Up(par, path[i]);
    if i + 1 < |path| {
      assert IsAncestor(par, x, i + 1, path[i + 1]);
    }
  }

  function Tail(path: seq<EntryId>, start: nat): set<EntryId> { set i | start <= i < |path| :: path[i] }

  // A walk that meets itself: the part from there on is a cycle, and nothing else lies ahead.
  lemma WalkCircular(par: Parents, x: EntryId, path: seq<EntryId>, start: nat)
    requires start < |path| && IsWalk(par, x, path, Some(path[start]))
    ensures Circular(par, Tail(path, start))
  {
    forall v | v in Tail(path, start)
      ensures Up(par, v).Some? && Up(par, v).value in Tail(path, start)
    {
      var i: nat :| start <= i < |path| && path[i] == v;
      WalkEdge(par, x, path, Some(path[start]), i);
    }
  }

  lemma BehindCycle(par: Parents, x: EntryId, path: seq<EntryId>, start: nat, n: nat)
    requires start < |path| && IsWalk(par, x, path, Some(path[start])) && n >= |path|
    ensures Ancestor(par, x, n).Some? && Ancestor(par, x, n).value in path
  {
    hide Ancestor, Circular, IsWalk, Tail;
    WalkCircular(par, x, path, start);
    WalkMeetsItself(par, x, path, start);
    AncestorAdd(par, x, |path|, path[start], n - |path|);
    CircularStays(par, Tail(path, start), path[start], n - |path|);
  }

  lemma WalkMeetsItself(par: Parents, x: EntryId, path: seq<EntryId>, start: nat)
    requires start < |path| && IsWalk(par, x, path, Some(path[start]))
    ensures IsAncestor(par, x, |path|, path[start])
    ensures path[start] in Tail(path, start) && forall v | v in Tail(path, start) :: v in path
  {
  }

  lemma WalkCycle(par: Parents, x: EntryId, path: seq<EntryId>, start: nat, i: nat, j: nat)
    requires start < |path| && IsWalk(par, x, path, Some(path[start]))
    requires start <= i < |path| && start <= j < |path|
    ensures |path| - i + (j - start) > 0 && IsAncestor(par, path[i], |path| - i + (j - start), path[j])
  {
    hide Ancestor;
    WalkForward(par, x, path, Some(path[start]), i, |path|);
    WalkForward(par, x, path, Some(path[start]), start, j);
    AncestorAdd(par, path[i], |path| - i, path[start], j - start);
  }

  lemma WalkForward(par: Parents, x: EntryId, path: seq<EntryId>, next: Option<EntryId>, i: nat, j: nat)
    requires IsWalk(par, x, path, next) && i <= j <= |path| && i < |path|
    ensures Ancestor(par, path[i], j - i) == if j < |path| then Some(path[j]) else next
  {
    assert IsAncestor(par, x, i, path[i]);
    AncestorAdd(par, x, i, path[i], j - i);
    if j < |path| {
      assert IsAncestor(par, x, j, path[j]);
    }
  }

  // Walks stay within the entries and their parents, so they end.
  function Universe(par: Parents): set<EntryId> {
    par.Keys + set x | x in par && par[x].Some? :: par[x].value
  }

  lemma WalkInUniverse(par: Parents, x: EntryId, path: seq<EntryId>, next: Option<EntryId>)
    requires IsWalk(par, x, path, next)
    ensures forall y | y in path :: y == x || y in Universe(par)
    ensures next.Some? ==> next.value == x || next.value in Universe(par)
  {
    forall n: nat | n <= |path| && Ancestor(par, x, n).Some?
      ensures Ancestor(par, x, n).value == x || Ancestor(par, x, n).value in Universe(par)
    {
      if n > 0 {
        AncestorSome(par, x, n - 1, n);
      }
    }
    forall y | y in path
      ensures y == x || y in Universe(par)
    {
      var i: nat :| i < |path| && path[i] == y;
      assert IsAncestor(par, x, i, path[i]);
    }
  }

  // ----- Chains under a change of some edges -----

  // Two edge maps that agree along a chain have the same chain.
  lemma {:induction false} SameChain(par: Parents, par': Parents, x: EntryId, n: nat)
    requires forall m: nat, y | m < n && IsAncestor(par, x, m, y) :: Up(par', y) == Up(par, y)
    ensures Ancestor(par', x, n) == Ancestor(par, x, n)
  {
    if n > 0 {
      SameChain(par, par', x, n - 1);
      if Ancestor(par, x, n - 1).Some? {
        assert IsAncestor(par, x, n - 1, Ancestor(par, x, n - 1).value);
      }
    }
  }
}
