// client/src/crdt/ProjectTree.ts: the registers of a set of operations, and the entries they show.
module ProjectRegisters {
  import opened Wrappers
  import opened CrdtIds
  import opened ProjectOps
  import opened ParentChains
  import opened ParentForests

  // ----- What the registers show -----

  function RawParents(regs: Registers): Parents {
    map e | e in regs.creates :: if e in regs.parents then regs.parents[e].value else None
  }

  function ParentVersions(regs: Registers): Versions {
    map e | e in regs.creates :: if e in regs.parents then regs.parents[e].opId else regs.creates[e].opId
  }

  // Created, and no entry on the chain from it upwards, itself included, is deleted.
  ghost predicate Shown(regs: Registers, e: EntryId) {
    e in regs.creates && !ReachesAny(RawParents(regs), e, regs.deleted.Keys)
  }

  ghost function ShownEntries(regs: Registers): set<EntryId> { set e | e in regs.creates && Shown(regs, e) }

  // The parent of a shown entry, if that is a shown folder.
  ghost function ValidParents(regs: Registers): Parents {
    map e | e in ShownEntries(regs) ::
      var p := RawParents(regs)[e];
      if p.Some? && Shown(regs, p.value) && regs.creates[p.value].value.isFolder then p else None
  }

  ghost function FinalParents(regs: Registers): Parents { Broken(ValidParents(regs), ParentVersions(regs)) }

  ghost function EntriesOf(regs: Registers): map<EntryId, RoomEntry> {
    map e | e in ShownEntries(regs) ::
      RoomEntry(regs.creates[e].value.id,
                if e in regs.names then regs.names[e].value else regs.creates[e].value.name,
                FinalParents(regs)[e],
                regs.creates[e].value.isFolder)
  }

  // Every create also writes a name and a parent, under its own id, and no two entries share a version.
  ghost predicate RegistersOk(regs: Registers) {
    && regs.creates.Keys <= regs.names.Keys && regs.creates.Keys <= regs.parents.Keys
    && (forall e | e in regs.creates :: regs.creates[e].value.id == e)
    && (forall e, f | e in regs.parents && f in regs.parents && regs.parents[e].opId == regs.parents[f].opId :: e == f)
  }

  lemma CreatesWriteAll(ops: set<TreeOp>)
    ensures Written(ops, Creates) <= Written(ops, Names) && Written(ops, Creates) <= Written(ops, Parents)
  {
  }

  lemma RegistersOfOk(ops: set<TreeOp>)
    requires UniqueIds(ops)
    ensures RegistersOk(RegistersOf(ops))
  {
    hide Written, Deciders;
    CreatesWriteAll(ops);
    var c, p := Deciders(ops, Creates), Deciders(ops, Parents);
    assert forall e | e in c :: Wins(ops, Creates, e, c[e]) && c[e].CreateOp?;
    forall e, f | e in p && f in p && p[e].opId == p[f].opId
      ensures e == f
    {
      assert Wins(ops, Parents, e, p[e]) && Wins(ops, Parents, f, p[f]);
    }
  }

  lemma VersionsDistinct(regs: Registers)
    requires RegistersOk(regs)
    ensures Versioned(ValidParents(regs), ParentVersions(regs)) && Inside(ValidParents(regs))
  {
    hide ReachesAny;
  }

  // The entries form a forest of folders: each parent is none or a shown folder, no chain of parents
  // returns to its start, and an entry's valid parent is dropped exactly if the entry has the lowest
  // version of a cycle - of which every cycle has exactly one.
  ghost predicate IsForestOfFolders(regs: Registers, entries: map<EntryId, RoomEntry>) {
    && entries.Keys == ShownEntries(regs)
    && (forall e | e in entries && entries[e].parentId.Some? ::
          entries[e].parentId.value in entries && entries[entries[e].parentId.value].isFolder)
    && Forest(map e | e in entries :: entries[e].parentId)
    && (forall e | e in entries :: entries[e].id == e && (entries[e].parentId != ValidParents(regs)[e] <==>
          LowestOfCycle(ValidParents(regs), ParentVersions(regs), e)))
  }

  lemma FinalParentsFacts(regs: Registers)
    requires RegistersOk(regs)
    ensures FinalParents(regs).Keys == ValidParents(regs).Keys == ShownEntries(regs) <= regs.creates.Keys
    ensures forall e | e in ShownEntries(regs) && FinalParents(regs)[e].Some? ::
              var p := FinalParents(regs)[e].value; p in ShownEntries(regs) && regs.creates[p].value.isFolder
    ensures forall e | e in ShownEntries(regs) ::
              FinalParents(regs)[e] != ValidParents(regs)[e] <==>
                LowestOfCycle(ValidParents(regs), ParentVersions(regs), e)
    ensures Forest(FinalParents(regs))
  {
    hide ReachesAny, LowestOfCycle, OnCycle;
    VersionsDistinct(regs);
    BrokenIsForest(ValidParents(regs), ParentVersions(regs));
  }

  lemma EntriesFields(regs: Registers)
    requires RegistersOk(regs)
    ensures EntriesOf(regs).Keys == ShownEntries(regs) == FinalParents(regs).Keys <= regs.creates.Keys
    ensures forall e | e in EntriesOf(regs) ::
              var entry := EntriesOf(regs)[e];
              entry.id == e && entry.parentId == FinalParents(regs)[e]
                && entry.isFolder == regs.creates[e].value.isFolder
  {
    hide Shown, ShownEntries, ValidParents, FinalParents, LowestOfCycle, Forest;
    FinalParentsFacts(regs);
  }

  lemma EntriesFormForest(regs: Registers)
    requires RegistersOk(regs)
    ensures IsForestOfFolders(regs, EntriesOf(regs))
  {
    hide Shown, ShownEntries, ValidParents, FinalParents, LowestOfCycle, Forest, EntriesOf, RegistersOk;
    FinalParentsFacts(regs);
    EntriesFields(regs);
    var entries := EntriesOf(regs);
    assert (map e | e in entries :: entries[e].parentId) == FinalParents(regs);
  }

  // ----- The same in terms of the operations -----

  // Shown: created, and no ancestor of any degree, the entry itself being the zeroth, is deleted.
  lemma ShownMeans(regs: Registers, e: EntryId)
    ensures e in ShownEntries(regs) <==>
              && e in regs.creates
              && forall n: nat | Ancestor(RawParents(regs), e, n).Some? ::
                   Ancestor(RawParents(regs), e, n).value !in regs.deleted
  {
    hide RawParents;
    var raw := RawParents(regs);
    if e in ShownEntries(regs) {
      forall n: nat | Ancestor(raw, e, n).Some?
        ensures Ancestor(raw, e, n).value !in regs.deleted
      {
        assert IsAncestor(raw, e, n, Ancestor(raw, e, n).value);
        assert Reaches(raw, e, Ancestor(raw, e, n).value);
      }
    } else if e in regs.creates {
      var y :| y in regs.deleted.Keys && Reaches(raw, e, y);
      var n: nat :| IsAncestor(raw, e, n, y);
      assert Ancestor(RawParents(regs), e, n).Some? && Ancestor(RawParents(regs), e, n).value in regs.deleted;
    }
  }

  // The greatest create says whether the entry is a folder; the greatest of creates and renames names
  // it; the greatest of creates and moves places it, and its id is the version of the place.
  lemma EntryMeans(ops: set<TreeOp>, e: EntryId, create: TreeOp, name: TreeOp, place: TreeOp)
    requires UniqueIds(ops) && e in ShownEntries(RegistersOf(ops))
    requires Wins(ops, Creates, e, create) && Wins(ops, Names, e, name) && Wins(ops, Parents, e, place)
    ensures var regs := RegistersOf(ops);
            && e in EntriesOf(regs) && create.CreateOp?
            && EntriesOf(regs)[e].id == e && EntriesOf(regs)[e].isFolder == create.entry.isFolder
            && EntriesOf(regs)[e].name == (if name.CreateOp? then name.entry.name else name.name)
            && RawParents(regs)[e] == (if place.CreateOp? then place.entry.parentId else place.parentId)
            && ParentVersions(regs)[e] == place.opId
  {
    hide ShownEntries, ValidParents, FinalParents, UniqueIds, Written;
    RegistersOfOk(ops);
    EntriesFields(RegistersOf(ops));
    WinsUnique(ops, Creates, e, create, Deciders(ops, Creates)[e]);
    WinsUnique(ops, Names, e, name, Deciders(ops, Names)[e]);
    WinsUnique(ops, Parents, e, place, Deciders(ops, Parents)[e]);
  }

  // It stands below the place decided for it, unless that is not a shown folder, or the entry closes a
  // cycle and its place has the least version of all on the cycle; then it stands at the top.
  lemma PlaceMeans(regs: Registers, e: EntryId)
    requires RegistersOk(regs) && e in ShownEntries(regs)
    ensures e in EntriesOf(regs) && e in RawParents(regs)
    ensures EntriesOf(regs)[e].parentId ==
              match RawParents(regs)[e]
              case None => None
              case Some(q) =>
                if q in ShownEntries(regs) && regs.creates[q].value.isFolder && !HasLeastVersion(regs, e) then Some(q)
                else None
  {
    hide ShownEntries, LowestOfCycle, OnCycle;
    EntriesFields(regs);
    FinalParentsFacts(regs);
    LeastVersionMeans(regs, e);
    assert forall q :: q in ShownEntries(regs) ==> q in regs.creates;
    assert forall q :: q in ShownEntries(regs) <==> Shown(regs, q) by {
      ShownIff(regs);
    }
  }

  lemma ShownIff(regs: Registers)
    ensures forall q :: q in ShownEntries(regs) <==> Shown(regs, q)
  {
  }

  ghost predicate HasLeastVersion(regs: Registers, e: EntryId) {
    && e in ParentVersions(regs) && OnCycle(ValidParents(regs), e)
    && (forall y | Reaches(ValidParents(regs), e, y) && y != e ::
          y in ParentVersions(regs) && CompareCrdtIds(ParentVersions(regs)[e], ParentVersions(regs)[y]) < 0)
  }

  lemma LeastVersionMeans(regs: Registers, e: EntryId)
    requires RegistersOk(regs)
    ensures LowestOfCycle(ValidParents(regs), ParentVersions(regs), e) <==> HasLeastVersion(regs, e)
  {
    hide ValidParents, ParentVersions, OnCycle, Reaches;
  }

  // ----- buildRegisters -----

  function SelectRegister<T>(registers: map<EntryId, Register<T>>, e: EntryId,
                             candidate: Register<T>): map<EntryId, Register<T>> {
    registers[e := if e !in registers || CompareCrdtIds(candidate.opId, registers[e].opId) > 0 then candidate
                   else registers[e]]
  }

  function Chosen(d: map<EntryId, TreeOp>, op: TreeOp): TreeOp {
    var e := EntryOf(op);
    if e !in d || CompareCrdtIds(op.opId, d[e].opId) > 0 then op else d[e]
  }

  lemma DecidersUnique(ops: set<TreeOp>, k: Kind, d: map<EntryId, TreeOp>)
    requires UniqueIds(ops) && d.Keys == Written(ops, k) && forall e | e in d :: Wins(ops, k, e, d[e])
    ensures d == Deciders(ops, k)
  {
    hide Written, Wins;
    forall e | e in d
      ensures d[e] == Deciders(ops, k)[e]
    {
      WinsUnique(ops, k, e, d[e], Deciders(ops, k)[e]);
    }
  }

  lemma StillWins(ops: set<TreeOp>, op: TreeOp, k: Kind, e: EntryId, before: TreeOp)
    requires Wins(ops, k, e, before)
    requires Writes(op, k) && EntryOf(op) == e ==> CompareCrdtIds(op.opId, before.opId) <= 0
    ensures Wins(ops + {op}, k, e, before)
  {
    IdTrichotomy(op.opId, before.opId);
    IdTrichotomy(before.opId, op.opId);
  }

  lemma NowWins(ops: set<TreeOp>, op: TreeOp, k: Kind, before: Option<TreeOp>)
    requires Writes(op, k)
    requires match before
             case None => EntryOf(op) !in Written(ops, k)
             case Some(b) => Wins(ops, k, EntryOf(op), b) && CompareCrdtIds(op.opId, b.opId) > 0
    ensures Wins(ops + {op}, k, EntryOf(op), op)
  {
    forall o | o in ops + {op} && Writes(o, k) && EntryOf(o) == EntryOf(op)
      ensures !IdLess(op.opId, o.opId)
    {
      IdTrichotomy(op.opId, o.opId);
      if o != op {
        assert EntryOf(o) in Written(ops, k);
        IdTrichotomy(op.opId, before.value.opId);
        NotLessTransitive(op.opId, before.value.opId, o.opId);
      }
    }
  }

  lemma DecidersAfter(ops: set<TreeOp>, op: TreeOp, k: Kind)
    requires UniqueIds(ops + {op})
    ensures var d := Deciders(ops, k);
            Deciders(ops + {op}, k) == if Writes(op, k) then d[EntryOf(op) := Chosen(d, op)] else d
  {
    hide Deciders, Wins, CompareCrdtIds, UniqueIds;
    var d := Deciders(ops, k);
    var d' := if Writes(op, k) then d[EntryOf(op) := Chosen(d, op)] else d;
    assert Written(ops + {op}, k) == Written(ops, k) + if Writes(op, k) then {EntryOf(op)} else {};
    forall e | e in d'
      ensures Wins(ops + {op}, k, e, d'[e])
    {
      if Writes(op, k) && EntryOf(op) == e && (e !in d || CompareCrdtIds(op.opId, d[e].opId) > 0) {
        NowWins(ops, op, k, if e in d then Some(d[e]) else None);
      } else {
        StillWins(ops, op, k, e, d[e]);
      }
    }
    DecidersUnique(ops + {op}, k, d');
  }

  lemma CreatesAfter(ops: set<TreeOp>, op: TreeOp)
    requires UniqueIds(ops + {op})
    ensures var before := RegistersOf(ops).creates;
            RegistersOf(ops + {op}).creates ==
              if op.CreateOp? then SelectRegister(before, op.entry.id, Register(op.opId, op.entry)) else before
  {
    hide Deciders, UniqueIds, Written, Wins, CompareCrdtIds;
    DecidersAfter(ops, op, Creates);
  }

  lemma NamesAfter(ops: set<TreeOp>, op: TreeOp)
    requires UniqueIds(ops + {op})
    ensures var before := RegistersOf(ops).names;
            RegistersOf(ops + {op}).names ==
              if Writes(op, Names) then SelectRegister(before, EntryOf(op), Register(op.opId, NameValue(op)))
              else before
  {
    hide Deciders, UniqueIds, Written, Wins, CompareCrdtIds;
    DecidersAfter(ops, op, Names);
  }

  lemma ParentsAfter(ops: set<TreeOp>, op: TreeOp)
    requires UniqueIds(ops + {op})
    ensures var before := RegistersOf(ops).parents;
            RegistersOf(ops + {op}).parents ==
              if Writes(op, Parents) then SelectRegister(before, EntryOf(op), Register(op.opId, ParentValue(op)))
              else before
  {
    hide Deciders, UniqueIds, Written, Wins, CompareCrdtIds;
    DecidersAfter(ops, op, Parents);
  }

  lemma DeletedAfter(ops: set<TreeOp>, op: TreeOp)
    requires UniqueIds(ops + {op})
    ensures var before := RegistersOf(ops).deleted;
            RegistersOf(ops + {op}).deleted ==
              if op.RemoveOp? then SelectRegister(before, op.entryId, Register(op.opId, true)) else before
  {
    hide Deciders, UniqueIds, Written, Wins, CompareCrdtIds;
    DecidersAfter(ops, op, Deletions);
  }

  // One iteration of buildRegisters.
  function WithOp(regs: Registers, op: TreeOp): Registers {
    match op
    case CreateOp(opId, entry) =>
      Registers(SelectRegister(regs.creates, entry.id, Register(opId, entry)),
                SelectRegister(regs.names, entry.id, Register(opId, entry.name)),
                SelectRegister(regs.parents, entry.id, Register(opId, entry.parentId)),
                regs.deleted)
    case RenameOp(opId, entryId, name) => regs.(names := SelectRegister(regs.names, entryId, Register(opId, name)))
    case MoveOp(opId, entryId, parentId) =>
      regs.(parents := SelectRegister(regs.parents, entryId, Register(opId, parentId)))
    case RemoveOp(opId, entryId) => regs.(deleted := SelectRegister(regs.deleted, entryId, Register(opId, true)))
  }

  lemma RegistersAfter(ops: set<TreeOp>, op: TreeOp)
    requires UniqueIds(ops + {op})
    ensures RegistersOf(ops + {op}) == WithOp(RegistersOf(ops), op)
  {
    hide Deciders, CompareCrdtIds, UniqueIds, Written;
    CreatesAfter(ops, op);
    NamesAfter(ops, op);
    ParentsAfter(ops, op);
    DeletedAfter(ops, op);
  }

  lemma UniqueSubset(some: set<TreeOp>, all: set<TreeOp>)
    requires some <= all && UniqueIds(all)
    ensures UniqueIds(some)
  {
  }

  lemma NoRegisters()
    ensures RegistersOf({}) == Registers(map[], map[], map[], map[])
  {
    assert forall k :: Deciders({}, k).Keys == {};
    var regs := RegistersOf({});
    assert regs.creates == map[] && regs.names == map[] && regs.parents == map[] && regs.deleted == map[];
  }

  // The loop over the operations, in whatever order the map yields them.
  method BuildRegisters(operations: set<TreeOp>) returns (registers: Registers)
    requires UniqueIds(operations)
    ensures registers == RegistersOf(operations)
  {
    hide RegistersOf, UniqueIds;
    registers := Registers(map[], map[], map[], map[]);
    var rest := operations;
    NoRegisters();
    assert operations - rest == {};
    while rest != {}
      invariant rest <= operations
      invariant registers == RegistersOf(operations - rest)
      decreases rest
    {
      var op :| op in rest;
      ghost var done := operations - rest;
      UniqueSubset(done + {op}, operations);
      RegistersAfter(done, op);
      registers := WithOp(registers, op);
      rest := rest - {op};
      assert operations - rest == done + {op};
    }
    assert operations - rest == operations;
  }
}
