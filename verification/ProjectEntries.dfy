// getEntries of client/src/crdt/ProjectTree.ts step by step: the visible entries are collected, the
// contents of deleted folders removed, invalid parents detached and parent cycles broken, in place.
module ProjectEntries {
  import opened Wrappers
  import opened CrdtIds
  import opened ProjectOps
  import opened ParentChains
  import opened ParentForests
  import opened ProjectRegisters

  datatype MaterializedEntry = MaterializedEntry(entry: RoomEntry, parentId: Option<EntryId>, parentVersion: CrdtId)

  function CreateVisibleEntry(id: EntryId, create: Register<RoomEntry>,
                              registers: Registers): Option<MaterializedEntry> {
    if id in registers.deleted then None
    else
      var name := if id in registers.names then registers.names[id].value else create.value.name;
      var parentId := if id in registers.parents then registers.parents[id].value else None;
      var parentVersion := if id in registers.parents then registers.parents[id].opId else create.opId;
      Some(MaterializedEntry(create.value.(name := name, parentId := parentId), parentId, parentVersion))
  }

  lemma VisibleEntryFacts(id: EntryId, registers: Registers)
    requires id in registers.creates
    ensures var item := CreateVisibleEntry(id, registers.creates[id], registers);
            && (item.Some? <==> id !in registers.deleted)
            && (item.Some? ==> item.value.parentId == RawParents(registers)[id])
  {
  }

  // The maps hold what createVisibleEntry gives for e.
  ghost predicate Collected(registers: Registers, e: EntryId, entries: map<EntryId, RoomEntry>, parents: Parents,
                            versions: Versions) {
    && e in registers.creates && e in entries && e in parents && e in versions
    && CreateVisibleEntry(e, registers.creates[e], registers) ==
         Some(MaterializedEntry(entries[e], parents[e], versions[e]))
  }

  // ----- Entries below a deleted one -----

  // Some proper ancestor is deleted.
  ghost predicate BelowDeleted(par: Parents, deleted: set<EntryId>, e: EntryId) {
    exists n: nat, d :: n > 0 && d in deleted && IsAncestor(par, e, n, d)
  }

  function Undeleted(regs: Registers): Parents {
    map e | e in regs.creates && e !in regs.deleted :: RawParents(regs)[e]
  }

  lemma {:induction false} UndeletedChain(regs: Registers, e: EntryId, n: nat)
    requires Ancestor(Undeleted(regs), e, n).Some?
    ensures Ancestor(RawParents(regs), e, n) == Ancestor(Undeleted(regs), e, n)
  {
    if n > 0 {
      AncestorSome(Undeleted(regs), e, n - 1, n);
      UndeletedChain(regs, e, n - 1);
    }
  }

  // The first deleted entry on the raw chain is found without passing through a deleted one.
  lemma {:induction false} FirstDeleted(regs: Registers, e: EntryId, n: nat, d: EntryId)
    requires IsAncestor(RawParents(regs), e, n, d) && d in regs.deleted
    requires e in regs.creates && e !in regs.deleted
    ensures BelowDeleted(Undeleted(regs), regs.deleted.Keys, e)
    decreases n
  {
    var raw, par := RawParents(regs), Undeleted(regs);
    if m: nat, y :| m < n && IsAncestor(raw, e, m, y) && y in regs.deleted {
      FirstDeleted(regs, e, m, y);
    } else {
      forall m: nat, y | m < n && IsAncestor(raw, e, m, y)
        ensures Up(par, y) == Up(raw, y)
      {
        assert y !in regs.deleted;
      }
      SameChain(raw, par, e, n);
      assert IsAncestor(par, e, n, d);
      assert Ancestor(raw, e, 0) == Some(e);
    }
  }

  lemma HiddenIffBelowDeleted(regs: Registers, e: EntryId)
    requires e in regs.creates && e !in regs.deleted
    ensures Shown(regs, e) <==> !BelowDeleted(Undeleted(regs), regs.deleted.Keys, e)
  {
    if BelowDeleted(Undeleted(regs), regs.deleted.Keys, e) {
      var n: nat, d :| n > 0 && d in regs.deleted && IsAncestor(Undeleted(regs), e, n, d);
      UndeletedChain(regs, e, n);
      assert IsAncestor(RawParents(regs), e, n, d);
      assert Reaches(RawParents(regs), e, d);
    }
    if ReachesAny(RawParents(regs), e, regs.deleted.Keys) {
      var d :| d in regs.deleted.Keys && Reaches(RawParents(regs), e, d);
      var n: nat :| IsAncestor(RawParents(regs), e, n, d);
      FirstDeleted(regs, e, n, d);
    }
  }

  lemma DeletedIsHidden(regs: Registers, e: EntryId)
    requires e in regs.deleted
    ensures !Shown(regs, e)
  {
    assert IsAncestor(RawParents(regs), e, 0, e);
    assert Reaches(RawParents(regs), e, e);
  }

  // A walk without deleted entries that ended, or met itself, met every ancestor there is.
  lemma WalkSawAll(par: Parents, deleted: set<EntryId>, e: EntryId, path: seq<EntryId>, next: Option<EntryId>)
    requires IsWalk(par, e, path, next) && path != []
    requires next.Some? ==> next.value in path
    requires forall y | y in path :: y !in deleted
    ensures !BelowDeleted(par, deleted, e)
  {
    forall n: nat, d | IsAncestor(par, e, n, d)
      ensures d in path
    {
      WalkSaw(par, e, path, next, n, d);
    }
  }

  lemma WalkSaw(par: Parents, e: EntryId, path: seq<EntryId>, next: Option<EntryId>, n: nat, d: EntryId)
    requires IsWalk(par, e, path, next) && IsAncestor(par, e, n, d)
    requires next.Some? ==> next.value in path
    ensures d in path
  {
    if n < |path| {
      assert IsAncestor(par, e, n, path[n]);
    } else if next.None? {
      AncestorNone(par, e, |path|, n);
    } else {
      var start: nat :| start < |path| && path[start] == next.value;
      BehindCycle(par, e, path, start, n);
    }
  }

  // ----- The walk of breakParentCycles -----

  // path is the walk so far, through entries not complete yet, and position its index.
  ghost predicate Walking(par: Parents, complete: set<EntryId>, startId: EntryId, path: seq<EntryId>,
                          position: map<EntryId, nat>, current: Option<EntryId>) {
    && IsWalk(par, startId, path, current)
    && (forall y | y in path :: y in par && y !in complete)
    && position.Keys == (set y | y in path)
    && (forall y | y in position :: position[y] < |path| && path[position[y]] == y)
    && (current.Some? ==> current.value in par)
    && (if path == [] then current == Some(startId) else path[0] == startId)
  }

  lemma WalkingStarts(par: Parents, ver: Versions, now: Parents, complete: set<EntryId>, startId: EntryId)
    requires BrokenUpTo(par, ver, now, complete) && startId in now
    ensures Walking(par, complete, startId, [], map[], Some(startId))
  {
  }

  lemma WalkingOn(par: Parents, ver: Versions, now: Parents, complete: set<EntryId>, startId: EntryId,
                  path: seq<EntryId>,
                  position: map<EntryId, nat>, y: EntryId)
    requires BrokenUpTo(par, ver, now, complete) && Inside(par)
    requires Walking(par, complete, startId, path, position, Some(y))
    requires y in now && y !in complete && y !in position
    ensures y in par && now[y] == par[y]
    ensures Walking(par, complete, startId, path + [y], position[y := |path|], now[y])
  {
    hide Broken;
    assert y !in path;
    WalkStep(par, startId, path, y);
    var path' := path + [y];
    assert path'[|path|] == y;
    assert forall z | z in path' :: z in path || z == y;
  }

  lemma WalkingEnds(par: Parents, ver: Versions, now: Parents, complete: set<EntryId>, startId: EntryId,
                    path: seq<EntryId>,
                    position: map<EntryId, nat>, current: Option<EntryId>)
    requires BrokenUpTo(par, ver, now, complete) && Versioned(par, ver) && startId in now && startId !in complete
    requires Walking(par, complete, startId, path, position, current)
    requires current.None? || current.value !in now || current.value in complete || current.value in position
    ensures startId in path
    ensures current.Some? && current.value in position ==>
              && position[current.value] < |path| && path[position[current.value]] == current.value
              && forall y | y in path[position[current.value]..] :: y in ver
    ensures current.Some? && current.value !in position ==> current.value in complete
  {
    hide Broken;
    assert path != [];
    assert path[0] in path;
    if current.Some? && current.value in position {
      forall y | y in path[position[current.value]..]
        ensures y in path
      {
      }
    }
  }

  lemma FinishedPath(par: Parents, ver: Versions, now: Parents, now': Parents, complete: set<EntryId>,
                     path: set<EntryId>)
    requires BrokenUpTo(par, ver, now, complete) && Closed(par, complete + path) && path <= par.Keys
    requires now'.Keys == now.Keys && forall y | y in now && y !in path :: now'[y] == now[y]
    requires forall y | y in path :: now'[y] == Broken(par, ver)[y]
    ensures BrokenUpTo(par, ver, now', complete + path)
  {
    hide Closed;
  }

  lemma CycleDetached(par: Parents, ver: Versions, now: Parents, complete: set<EntryId>, startId: EntryId,
                      path: seq<EntryId>,
                      position: map<EntryId, nat>, y: EntryId, low: EntryId)
    requires BrokenUpTo(par, ver, now, complete) && Versioned(par, ver)
    requires Walking(par, complete, startId, path, position, Some(y)) && y in position
    requires LowestIn(ver, path[position[y]..], low)
    ensures BrokenUpTo(par, ver, now[low := None], complete + set z | z in path)
  {
    hide LowestIn, Broken, Closed;
    var onPath := set z | z in path;
    WalkIntoCycle(par, ver, startId, path, position[y], low);
    WalkClosed(par, complete, startId, path, Some(y));
    FinishedPath(par, ver, now, now[low := None], complete, onPath);
  }

  lemma NothingDetached(par: Parents, ver: Versions, now: Parents, complete: set<EntryId>, startId: EntryId,
                        path: seq<EntryId>,
                        position: map<EntryId, nat>, current: Option<EntryId>)
    requires BrokenUpTo(par, ver, now, complete)
    requires Walking(par, complete, startId, path, position, current)
    requires current.Some? ==> current.value in complete
    ensures BrokenUpTo(par, ver, now, complete + set z | z in path)
  {
    hide Broken, Closed;
    WalkWithoutCycle(par, ver, complete, startId, path, current);
    WalkClosed(par, complete, startId, path, current);
    FinishedPath(par, ver, now, now, complete, set z | z in path);
  }

  // ----- The steps -----

  class VisibleProjectEntries {
    var entries: map<EntryId, RoomEntry>
    var parents: Parents
    var parentVersions: Versions

    constructor ()
      ensures entries == map[] && parents == map[] && parentVersions == map[]
    {
      entries := map[];
      parents := map[];
      parentVersions := map[];
    }

    method CreateVisibleEntries(registers: Registers)
      requires entries == map[] && parents == map[] && parentVersions == map[]
      modifies this
      ensures parents == Undeleted(registers)
      ensures entries.Keys == parentVersions.Keys == parents.Keys
      ensures forall e | e in parents :: Collected(registers, e, entries, parents, parentVersions)
    {
      hide CreateVisibleEntry;
      var rest := registers.creates.Keys;
      while rest != {}
        invariant rest <= registers.creates.Keys
        invariant entries.Keys == parentVersions.Keys == parents.Keys
        invariant parents.Keys == registers.creates.Keys - registers.deleted.Keys - rest
        invariant forall e | e in parents :: Collected(registers, e, entries, parents, parentVersions)
        decreases rest
      {
        var id :| id in rest;
        rest := rest - {id};
        VisibleEntryFacts(id, registers);
        var item := CreateVisibleEntry(id, registers.creates[id], registers);
        if item.Some? {
          entries := entries[id := item.value.entry];
          parents := parents[id := item.value.parentId];
          parentVersions := parentVersions[id := item.value.parentVersion];
        }
      }
      forall e | e in parents
        ensures parents[e] == RawParents(registers)[e]
      {
        VisibleEntryFacts(e, registers);
      }
    }

    // The inner loop of removeDeletedDescendants.
    method IsBelowDeleted(id: EntryId, deleted: set<EntryId>) returns (hidden: bool)
      requires id in parents && id !in deleted
      ensures hidden == BelowDeleted(parents, deleted, id)
    {
      var visited := {id};
      var parentId := parents[id];
      ghost var path := [id];
      assert Ancestor(parents, id, 1) == Up(parents, id);
      while parentId.Some?
        invariant path != [] && IsWalk(parents, id, path, parentId)
        invariant visited == set y | y in path
        invariant forall y | y in path :: y !in deleted
        decreases Universe(parents) + {id} - visited
      {
        if parentId.value in deleted {
          assert IsAncestor(parents, id, |path|, parentId.value);
          return true;
        }
        if parentId.value in visited {
          break;
        }
        WalkInUniverse(parents, id, path, parentId);
        WalkStep(parents, id, path, parentId.value);
        path := path + [parentId.value];
        visited := visited + {parentId.value};
        parentId := if parentId.value in parents then parents[parentId.value] else None;
      }
      WalkSawAll(parents, deleted, id, path, parentId);
      return false;
    }

    method RemoveDeletedDescendants(deleted: set<EntryId>)
      requires entries.Keys == parentVersions.Keys == parents.Keys && parents.Keys !! deleted
      modifies this
      ensures parents == map e | e in old(parents) && !BelowDeleted(old(parents), deleted, e) :: old(parents)[e]
      ensures entries == map e | e in parents :: old(entries)[e]
      ensures parentVersions == map e | e in parents :: old(parentVersions)[e]
    {
      var hidden := {};
      var rest := parents.Keys;
      while rest != {}
        invariant rest <= parents.Keys
        invariant parents == old(parents) && entries == old(entries) && parentVersions == old(parentVersions)
        invariant hidden <= parents.Keys
        invariant forall e | e in parents && e !in rest :: e in hidden <==> BelowDeleted(parents, deleted, e)
        invariant hidden !! rest
        decreases rest
      {
        var id :| id in rest;
        rest := rest - {id};
        var below := IsBelowDeleted(id, deleted);
        if below {
          hidden := hidden + {id};
        }
      }
      entries := entries - hidden;
      parents := parents - hidden;
      parentVersions := parentVersions - hidden;
    }

    method DetachInvalidParents()
      requires entries.Keys == parents.Keys
      modifies this`parents
      ensures parents == map e | e in old(parents) ::
                var p := old(parents)[e];
                if p.Some? && p.value in entries && entries[p.value].isFolder then p else None
    {
      var rest := parents.Keys;
      while rest != {}
        invariant rest <= parents.Keys == old(parents).Keys
        invariant forall e | e in rest :: parents[e] == old(parents)[e]
        invariant forall e | e in parents && e !in rest ::
                    var p := old(parents)[e];
                    parents[e] == if p.Some? && p.value in entries && entries[p.value].isFolder then p else None
        decreases rest
      {
        var id :| id in rest;
        rest := rest - {id};
        var parentId := parents[id];
        if parentId.Some? {
          if parentId.value !in entries || !entries[parentId.value].isFolder {
            parents := parents[id := None];
          }
        }
      }
    }

    // The reduce over the cycle.
    method LowestVersion(cycle: seq<EntryId>) returns (lowest: EntryId)
      requires cycle != [] && forall e | e in cycle :: e in parentVersions
      ensures LowestIn(parentVersions, cycle, lowest)
    {
      lowest := cycle[0];
      IdTrichotomy(parentVersions[cycle[0]], parentVersions[cycle[0]]);
      for i := 1 to |cycle|
        invariant lowest in cycle[..i]
        invariant forall k | 0 <= k < i :: !IdLess(parentVersions[cycle[k]], parentVersions[lowest])
      {
        var candidate := cycle[i];
        var before := lowest;
        IdTrichotomy(parentVersions[candidate], parentVersions[before]);
        if CompareCrdtIds(parentVersions[candidate], parentVersions[before]) < 0 {
          lowest := candidate;
          IdTrichotomy(parentVersions[candidate], parentVersions[candidate]);
          forall k | 0 <= k < i
            ensures !IdLess(parentVersions[cycle[k]], parentVersions[candidate])
          {
            NotLessTransitive(parentVersions[cycle[k]], parentVersions[before], parentVersions[candidate]);
          }
        }
      }
    }

    // One pass of the outer loop: the walk from startId through entries that are not complete yet.
    method WalkFrom(startId: EntryId, complete: set<EntryId>, ghost par: Parents) returns (done: set<EntryId>)
      requires startId in parents && startId !in complete
      requires Inside(par) && Versioned(par, parentVersions) && BrokenUpTo(par, parentVersions, parents, complete)
      modifies this`parents
      ensures BrokenUpTo(par, parentVersions, parents, done)
      ensures complete + {startId} <= done
    {
      hide Walking, BrokenUpTo, Versioned, Inside, LowestIn;
      var path: seq<EntryId> := [];
      var position: map<EntryId, nat> := map[];
      var currentId := Some(startId);
      WalkingStarts(par, parentVersions, parents, complete, startId);
      while currentId.Some? && currentId.value in parents && currentId.value !in complete
        invariant parents == old(parents)
        invariant Walking(par, complete, startId, path, position, currentId)
        decreases par.Keys - position.Keys
      {
        if currentId.value in position {
          break;
        }
        WalkingOn(par, parentVersions, parents, complete, startId, path, position, currentId.value);
        assert currentId.value in par.Keys - position.Keys;
        position := position[currentId.value := |path|];
        path := path + [currentId.value];
        currentId := parents[currentId.value];
      }
      done := complete + set y | y in path;
      WalkingEnds(par, parentVersions, parents, complete, startId, path, position, currentId);
      if currentId.Some? && currentId.value in position {
        var cycleStart := position[currentId.value];
        var cycle := path[cycleStart..];
        var detachedId := LowestVersion(cycle);
        CycleDetached(par, parentVersions, parents, complete, startId, path, position, currentId.value, detachedId);
        parents := parents[detachedId := None];
      } else {
        NothingDetached(par, parentVersions, parents, complete, startId, path, position, currentId);
      }
    }

    // Whatever order the entries are started from, the result is the same.
    method BreakParentCycles()
      requires Inside(parents) && Versioned(parents, parentVersions)
      modifies this`parents
      ensures parents == Broken(old(parents), parentVersions)
    {
      hide Broken, Versioned;
      ghost var par := parents;
      var complete := {};
      var rest := parents.Keys;
      while rest != {}
        invariant rest <= par.Keys && par.Keys - rest <= complete
        invariant BrokenUpTo(par, parentVersions, parents, complete)
        decreases rest
      {
        var startId :| startId in rest;
        rest := rest - {startId};
        if startId !in complete {
          complete := WalkFrom(startId, complete, par);
        }
      }
      AllBroken(par, parentVersions, parents, complete);
    }
  }

  lemma AllBroken(par: Parents, ver: Versions, now: Parents, done: set<EntryId>)
    requires BrokenUpTo(par, ver, now, done) && par.Keys <= done
    ensures now == Broken(par, ver)
  {
  }
}
