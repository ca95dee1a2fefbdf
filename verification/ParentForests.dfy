// What breakParentCycles in client/src/crdt/ProjectTree.ts leaves: every cycle of parents loses the
// edge of its entry with the lowest version, and no other edge is lost.
module ParentForests {
  import opened Wrappers
  import opened CrdtIds
  import opened ProjectOps
  import opened ParentChains

  type Versions = map<EntryId, CrdtId>

  ghost predicate Versioned(par: Parents, ver: Versions) {
    && par.Keys <= ver.Keys
    && (forall x, y | x in par && y in par && ver[x] == ver[y] :: x == y)
  }

  // Every parent is itself an entry.
  ghost predicate Inside(par: Parents) {
    forall x | x in par && par[x].Some? :: par[x].value in par
  }

  ghost predicate LowestOfCycle(par: Parents, ver: Versions, x: EntryId) {
    && x in ver && OnCycle(par, x)
    && (forall y | Reaches(par, x, y) :: y in ver && (y == x || IdLess(ver[x], ver[y])))
  }

  ghost function Broken(par: Parents, ver: Versions): Parents {
    map x | x in par :: if LowestOfCycle(par, ver, x) then None else par[x]
  }

  // ----- Cycles -----

  lemma {:induction false} CycleNeverEnds(par: Parents, x: EntryId, n: nat, m: nat)
    requires n > 0 && IsAncestor(par, x, n, x)
    ensures Ancestor(par, x, m).Some?
    decreases m
  {
    if m <= n {
      AncestorSome(par, x, m, n);
    } else {
      AncestorAdd(par, x, n, x, m - n);
      CycleNeverEnds(par, x, n, m - n);
    }
  }

  lemma {:induction false} CycleReturns(par: Parents, x: EntryId, n: nat, k: nat, y: EntryId)
    requires n > 0 && IsAncestor(par, x, n, x) && IsAncestor(par, x, k, y)
    ensures Reaches(par, y, x)
    decreases k
  {
    if k <= n {
      AncestorAdd(par, x, k, y, n - k);
      assert IsAncestor(par, y, n - k, x);
    } else {
      AncestorAdd(par, x, n, x, k - n);
      CycleReturns(par, x, n, k - n, y);
    }
  }

  lemma OnCycleReturns(par: Parents, x: EntryId, y: EntryId)
    requires OnCycle(par, x) && Reaches(par, x, y)
    ensures Reaches(par, y, x) && OnCycle(par, y)
  {
    var n: nat :| n > 0 && IsAncestor(par, x, n, x);
    var k: nat :| IsAncestor(par, x, k, y);
    CycleReturns(par, x, n, k, y);
    var m: nat :| IsAncestor(par, y, m, x);
    AncestorAdd(par, y, m, x, n);
    AncestorAdd(par, y, m + n, x, k);
    assert IsAncestor(par, y, m + n + k, y);
  }

  lemma OnCycleInside(par: Parents, x: EntryId, y: EntryId)
    requires OnCycle(par, x) && Reaches(par, x, y)
    ensures y in par && par[y].Some?
  {
    OnCycleReturns(par, x, y);
    var n: nat :| n > 0 && IsAncestor(par, y, n, y);
    AncestorSome(par, y, 1, n);
    assert Ancestor(par, y, 0) == Some(y);
    assert Ancestor(par, y, 1) == Up(par, y);
  }

  lemma {:induction false} LowestExists(ver: Versions, xs: set<EntryId>) returns (low: EntryId)
    requires xs != {} && xs <= ver.Keys
    ensures low in xs && forall x | x in xs :: !IdLess(ver[x], ver[low])
  {
    var x :| x in xs;
    low := x;
    if xs != {x} {
      var l := LowestExists(ver, xs - {x});
      if IdLess(ver[l], ver[x]) {
        low := l;
      }
      forall y | y in xs
        ensures !IdLess(ver[y], ver[low])
      {
        IdTrichotomy(ver[x], ver[l]);
        IdTrichotomy(ver[x], ver[x]);
        if y != x {
          NotLessTransitive(ver[y], ver[l], ver[low]);
        }
      }
    } else {
      IdTrichotomy(ver[x], ver[x]);
    }
  }

  // Every cycle has exactly one entry that loses its edge.
  lemma CycleHasLowest(par: Parents, ver: Versions, x: EntryId) returns (low: EntryId)
    requires Versioned(par, ver) && OnCycle(par, x)
    ensures Reaches(par, x, low) && LowestOfCycle(par, ver, low)
    ensures forall y | Reaches(par, x, y) && LowestOfCycle(par, ver, y) :: y == low
  {
    var cycle := set y | y in par && Reaches(par, x, y);
    assert IsAncestor(par, x, 0, x);
    OnCycleInside(par, x, x);
    assert x in cycle;
    low := LowestExists(ver, cycle);
    OnCycleReturns(par, x, low);
    forall y | Reaches(par, low, y)
      ensures y in ver && (y == low || IdLess(ver[low], ver[y]))
    {
      ReachesTransitive(par, x, low, y);
      OnCycleInside(par, x, y);
      IdTrichotomy(ver[low], ver[y]);
    }
    forall y | Reaches(par, x, y) && LowestOfCycle(par, ver, y)
      ensures y == low
    {
      OnCycleReturns(par, x, y);
      ReachesTransitive(par, y, x, low);
      IdTrichotomy(ver[low], ver[y]);
      ReachesTransitive(par, low, x, y);
    }
  }

  // ----- The result is a forest -----

  lemma {:induction false} BrokenChain(par: Parents, ver: Versions, x: EntryId, n: nat)
    requires Ancestor(Broken(par, ver), x, n).Some?
    ensures Ancestor(par, x, n) == Ancestor(Broken(par, ver), x, n)
  {
    if n > 0 {
      AncestorSome(Broken(par, ver), x, n - 1, n);
      BrokenChain(par, ver, x, n - 1);
    }
  }

  // After breaking, no chain of parents comes back to its start, and each edge is either an edge
  // from before or gone.
  lemma BrokenIsForest(par: Parents, ver: Versions)
    requires Versioned(par, ver)
    ensures Forest(Broken(par, ver))
    ensures Inside(par) ==> Inside(Broken(par, ver))
    ensures forall x | x in par :: Broken(par, ver)[x] != par[x] <==> LowestOfCycle(par, ver, x)
  {
    var broken := Broken(par, ver);
    forall x
      ensures !OnCycle(broken, x)
    {
      BrokenHasNoCycle(par, ver, x);
    }
    forall x | x in par && LowestOfCycle(par, ver, x)
      ensures par[x].Some?
    {
      assert IsAncestor(par, x, 0, x);
      OnCycleInside(par, x, x);
    }
  }

  lemma BrokenHasNoCycle(par: Parents, ver: Versions, x: EntryId)
    requires Versioned(par, ver)
    ensures !OnCycle(Broken(par, ver), x)
  {
    var broken := Broken(par, ver);
    if OnCycle(broken, x) {
      var n: nat :| n > 0 && IsAncestor(broken, x, n, x);
      CycleNeverEnds(broken, x, n, n);
      BrokenChain(par, ver, x, n);
      assert IsAncestor(par, x, n, x);
      var low := CycleHasLowest(par, ver, x);
      var k: nat :| IsAncestor(par, x, k, low);
      CycleNeverEnds(broken, x, n, k);
      BrokenChain(par, ver, x, k);
      assert Ancestor(broken, x, k + 1) == Up(broken, low);
      CycleNeverEnds(broken, x, n, k + 1);
    }
  }

  // ----- One walk of the loop -----

  // The entries in done already have their final parents, the others their old ones.
  ghost predicate BrokenUpTo(par: Parents, ver: Versions, now: Parents, done: set<EntryId>) {
    && now.Keys == par.Keys && done <= par.Keys
    && Closed(par, done)
    && (forall x | x in par && x !in done :: now[x] == par[x])
    && (forall x | x in done :: now[x] == Broken(par, ver)[x])
  }

  // A walk that ends at a root or among finished entries met no cycle.
  lemma WalkWithoutCycle(par: Parents, ver: Versions, done: set<EntryId>, x: EntryId, path: seq<EntryId>,
                         next: Option<EntryId>)
    requires IsWalk(par, x, path, next) && Closed(par, done)
    requires next.Some? ==> next.value in done
    requires forall y | y in path :: y !in done && y in par
    ensures forall y | y in path :: !OnCycle(par, y) && Broken(par, ver)[y] == par[y]
  {
    forall y | y in path
      ensures !OnCycle(par, y)
    {
      var i: nat :| i < |path| && path[i] == y;
      if OnCycle(par, y) {
        WalkForward(par, x, path, next, i, |path|);
        var n: nat :| n > 0 && IsAncestor(par, y, n, y);
        CycleNeverEnds(par, y, n, |path| - i);
        assert IsAncestor(par, y, |path| - i, next.value);
        OnCycleReturns(par, y, next.value);
        var m: nat :| IsAncestor(par, next.value, m, y);
        ClosedStays(par, done, next.value, m);
      }
    }
  }

  lemma WalkClosed(par: Parents, done: set<EntryId>, x: EntryId, path: seq<EntryId>, next: Option<EntryId>)
    requires IsWalk(par, x, path, next) && Closed(par, done)
    requires next.Some? ==> next.value in done || next.value in path
    ensures Closed(par, done + set y | y in path)
  {
    forall y | y in path && Up(par, y).Some?
      ensures Up(par, y).value in done || Up(par, y).value in path
    {
      var i: nat :| i < |path| && path[i] == y;
      WalkEdge(par, x, path, next, i);
    }
  }

  // The version with which the loop detaches is the lowest of the cycle the walk ran into.
  ghost predicate LowestIn(ver: Versions, xs: seq<EntryId>, low: EntryId) {
    low in xs && (forall y | y in xs :: y in ver) && forall y | y in xs :: !IdLess(ver[y], ver[low])
  }

  lemma OutsideTheCycle(par: Parents, x: EntryId, path: seq<EntryId>, start: nat, i: nat)
    requires start < |path| && IsWalk(par, x, path, Some(path[start])) && i < start
    ensures !OnCycle(par, path[i])
  {
    if OnCycle(par, path[i]) {
      WalkForward(par, x, path, Some(path[start]), i, start);
      assert IsAncestor(par, path[i], start - i, path[start]);
      OnCycleReturns(par, path[i], path[start]);
      var m: nat :| IsAncestor(par, path[start], m, path[i]);
      WalkCircular(par, x, path, start);
      assert path[start] in Tail(path, start);
      CircularStays(par, Tail(path, start), path[start], m);
      NotInTail(path, start, i);
    }
  }

  lemma NotInTail(path: seq<EntryId>, start: nat, i: nat)
    requires i < start <= |path| && forall i, j | 0 <= i < j < |path| :: path[i] != path[j]
    ensures path[i] !in Tail(path, start)
  {
  }

  lemma ReachedOnCycle(par: Parents, x: EntryId, path: seq<EntryId>, start: nat, i: nat, y: EntryId)
    requires start <= i < |path| && IsWalk(par, x, path, Some(path[start]))
    ensures OnCycle(par, path[i])
    ensures Reaches(par, path[i], y) <==> y in path[start..]
  {
    WalkCycle(par, x, path, start, i, i);
    if y in path[start..] {
      var j: nat :| j < |path[start..]| && path[start..][j] == y;
      WalkCycle(par, x, path, start, i, start + j);
    }
    if Reaches(par, path[i], y) {
      var m: nat :| IsAncestor(par, path[i], m, y);
      WalkCircular(par, x, path, start);
      assert path[i] in Tail(path, start);
      CircularStays(par, Tail(path, start), path[i], m);
      var j: nat :| start <= j < |path| && path[j] == y;
      assert path[start..][j - start] == y;
    }
  }

  lemma WalkIntoCycle(par: Parents, ver: Versions, x: EntryId, path: seq<EntryId>, start: nat, low: EntryId)
    requires Versioned(par, ver) && start < |path| && IsWalk(par, x, path, Some(path[start]))
    requires LowestIn(ver, path[start..], low)
    requires forall y | y in path :: y in par
    ensures low in path && forall y | y in path :: Broken(par, ver)[y] == if y == low then None else par[y]
  {
    var l: nat :| l < |path[start..]| && path[start..][l] == low;
    assert path[start + l] == low;
    forall y | y in path
      ensures LowestOfCycle(par, ver, y) <==> y == low
    {
      var i: nat :| i < |path| && path[i] == y;
      if i < start {
        OutsideTheCycle(par, x, path, start, i);
        assert low != y;
      } else {
        assert path[start..][i - start] == y;
        LowestAmong(par, ver, x, path, start, i, low);
      }
    }
  }

  lemma LowestAmong(par: Parents, ver: Versions, x: EntryId, path: seq<EntryId>, start: nat, i: nat, low: EntryId)
    requires Versioned(par, ver) && start <= i < |path| && IsWalk(par, x, path, Some(path[start]))
    requires LowestIn(ver, path[start..], low)
    requires forall y | y in path :: y in par
    ensures LowestOfCycle(par, ver, path[i]) <==> path[i] == low
  {
    ReachedOnCycle(par, x, path, start, i, low);
    assert path[start..][i - start] == path[i];
    if path[i] == low {
      forall y | Reaches(par, low, y)
        ensures y in ver && (y == low || IdLess(ver[low], ver[y]))
      {
        ReachedOnCycle(par, x, path, start, i, y);
        IdTrichotomy(ver[low], ver[y]);
      }
    } else {
      IdTrichotomy(ver[path[i]], ver[low]);
    }
  }
}
