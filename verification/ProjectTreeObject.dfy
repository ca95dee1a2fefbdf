// The ProjectTree object of client/src/crdt/ProjectTree.ts: operations by id, a Lamport clock,
// snapshots, and the entries shown.
module ProjectTreeObject {
  import opened Wrappers
  import opened Text
  import opened CrdtIds
  import opened ProjectOps
  import opened Sorting
  import opened ParentChains
  import opened ParentForests
  import opened ProjectRegisters
  import opened ProjectEntries

  // ----- getEntries -----

  lemma RemovalLeavesShown(regs: Registers)
    ensures (map e | e in Undeleted(regs) && !BelowDeleted(Undeleted(regs), regs.deleted.Keys, e) :: Undeleted(regs)[e])
            == map e | e in ShownEntries(regs) :: RawParents(regs)[e]
  {
    forall e | e in regs.creates
      ensures e in ShownEntries(regs) <==>
                e in Undeleted(regs) && !BelowDeleted(Undeleted(regs), regs.deleted.Keys, e)
    {
      if e in regs.deleted {
        DeletedIsHidden(regs, e);
      } else {
        HiddenIffBelowDeleted(regs, e);
      }
    }
  }

  lemma SameLowest(par: Parents, ver: Versions, ver': Versions, x: EntryId)
    requires forall e | e in par :: e in ver && e in ver' && ver[e] == ver'[e]
    requires LowestOfCycle(par, ver, x)
    ensures LowestOfCycle(par, ver', x)
  {
    assert IsAncestor(par, x, 0, x);
    OnCycleInside(par, x, x);
    forall y | Reaches(par, x, y)
      ensures y in ver' && (y == x || IdLess(ver'[x], ver'[y]))
    {
      OnCycleInside(par, x, y);
    }
  }

  lemma SameVersionsSameForest(par: Parents, ver: Versions, ver': Versions)
    requires forall e | e in par :: e in ver && e in ver' && ver[e] == ver'[e]
    ensures Broken(par, ver) == Broken(par, ver')
  {
    forall x | x in par
      ensures LowestOfCycle(par, ver, x) <==> LowestOfCycle(par, ver', x)
    {
      if LowestOfCycle(par, ver, x) {
        SameLowest(par, ver, ver', x);
      }
      if LowestOfCycle(par, ver', x) {
        SameLowest(par, ver', ver, x);
      }
    }
  }

  // What the collected maps hold of the entries that stay.
  ghost predicate CollectedShown(regs: Registers, entries: map<EntryId, RoomEntry>, versions: Versions) {
    && entries.Keys == versions.Keys == ShownEntries(regs)
    && (forall e | e in entries ::
          && entries[e].id == regs.creates[e].value.id
          && entries[e].name == (if e in regs.names then regs.names[e].value else regs.creates[e].value.name)
          && entries[e].isFolder == regs.creates[e].value.isFolder
          && versions[e] == ParentVersions(regs)[e])
  }

  lemma CollectedIsShown(regs: Registers, e: EntryId, entries: map<EntryId, RoomEntry>, parents: Parents,
                         versions: Versions)
    requires Collected(regs, e, entries, parents, versions)
    ensures entries[e].id == regs.creates[e].value.id
    ensures entries[e].name == if e in regs.names then regs.names[e].value else regs.creates[e].value.name
    ensures entries[e].isFolder == regs.creates[e].value.isFolder
    ensures versions[e] == ParentVersions(regs)[e]
  {
  }

  // The three steps in place, and the final parents written into the entries.
  method MaterializeEntries(registers: Registers) returns (entries: map<EntryId, RoomEntry>)
    requires RegistersOk(registers)
    ensures entries == EntriesOf(registers)
  {
    hide Collected, Shown, ShownEntries, BelowDeleted, LowestOfCycle, Broken, RawParents, Undeleted;
    hide ParentVersions, RegistersOk;
    var visible := new VisibleProjectEntries();
    visible.CreateVisibleEntries(registers);
    ghost var e0, p0, v0 := visible.entries, visible.parents, visible.parentVersions;
    forall e | e in p0
      ensures e in registers.creates && e !in registers.deleted
    {
      UndeletedFacts(registers, e);
    }
    visible.RemoveDeletedDescendants(registers.deleted.Keys);
    RemovalLeavesShown(registers);
    AllCollected(registers, e0, p0, v0, visible.entries, visible.parents, visible.parentVersions);
    visible.DetachInvalidParents();
    DetachedIsValid(registers, visible.entries, visible.parentVersions, visible.parents);
    ghost var par := visible.parents;
    VersionsDistinct(registers);
    VersionsAgree(registers, visible.entries, visible.parentVersions);
    visible.BreakParentCycles();
    SameVersionsSameForest(par, visible.parentVersions, ParentVersions(registers));
    BrokenKeys(par, ParentVersions(registers));
    entries := map e | e in visible.entries :: visible.entries[e].(parentId := visible.parents[e]);
    FinishedEntries(registers, visible.entries, visible.parentVersions, entries);
  }

  lemma UndeletedFacts(regs: Registers, e: EntryId)
    requires e in Undeleted(regs)
    ensures e in regs.creates && e !in regs.deleted
  {
  }

  lemma BrokenKeys(par: Parents, ver: Versions)
    ensures Broken(par, ver).Keys == par.Keys
  {
  }

  lemma AllCollected(regs: Registers, e0: map<EntryId, RoomEntry>, p0: Parents, v0: Versions,
                     entries: map<EntryId, RoomEntry>, parents: Parents, versions: Versions)
    requires e0.Keys == v0.Keys == p0.Keys
    requires forall e | e in p0 :: Collected(regs, e, e0, p0, v0)
    requires parents == map e | e in ShownEntries(regs) :: RawParents(regs)[e]
    requires parents.Keys <= p0.Keys
    requires entries == map e | e in parents :: e0[e]
    requires versions == map e | e in parents :: v0[e]
    ensures CollectedShown(regs, entries, versions)
  {
    hide Collected, Shown;
    forall e | e in entries
      ensures e in p0
      ensures && entries[e].id == regs.creates[e].value.id
              && entries[e].name == (if e in regs.names then regs.names[e].value else regs.creates[e].value.name)
              && entries[e].isFolder == regs.creates[e].value.isFolder
              && versions[e] == ParentVersions(regs)[e]
    {
      CollectedIsShown(regs, e, e0, p0, v0);
    }
  }

  lemma DetachedIsValid(regs: Registers, entries: map<EntryId, RoomEntry>, versions: Versions, parents: Parents)
    requires CollectedShown(regs, entries, versions)
    requires parents == map e | e in ShownEntries(regs) ::
               var p := RawParents(regs)[e];
               if p.Some? && p.value in entries && entries[p.value].isFolder then p else None
    ensures parents == ValidParents(regs)
  {
    hide ReachesAny;
  }

  lemma VersionsAgree(regs: Registers, entries: map<EntryId, RoomEntry>, versions: Versions)
    requires CollectedShown(regs, entries, versions) && RegistersOk(regs)
    ensures forall e | e in ValidParents(regs) ::
              e in versions && e in ParentVersions(regs) && versions[e] == ParentVersions(regs)[e]
    ensures Versioned(ValidParents(regs), versions)
  {
    hide Shown;
    VersionsDistinct(regs);
  }

  lemma FinishedEntries(regs: Registers, entries: map<EntryId, RoomEntry>, versions: Versions,
                        result: map<EntryId, RoomEntry>)
    requires CollectedShown(regs, entries, versions)
    requires FinalParents(regs).Keys == ShownEntries(regs)
    requires result == map e | e in entries :: entries[e].(parentId := FinalParents(regs)[e])
    ensures result == EntriesOf(regs)
  {
    hide Shown, FinalParents;
  }

  // ----- toSnapshot -----

  // What the loop over the creates pushes for one entry.
  function EntryOps(regs: Registers, e: EntryId): set<TreeOp>
    requires e in regs.creates
  {
    var create := regs.creates[e];
    {CreateOp(create.opId, create.value)}
    + (if e in regs.names && CompareCrdtIds(regs.names[e].opId, create.opId) != 0
       then {RenameOp(regs.names[e].opId, e, regs.names[e].value)} else {})
    + (if e in regs.parents && CompareCrdtIds(regs.parents[e].opId, create.opId) != 0
       then {MoveOp(regs.parents[e].opId, e, regs.parents[e].value)} else {})
    + (if e in regs.deleted then {RemoveOp(regs.deleted[e].opId, e)} else {})
  }

  // What the three loops over the other registers push for an entry that was never created.
  function OrphanOps(regs: Registers, e: EntryId): set<TreeOp> {
    (if e in regs.names then {RenameOp(regs.names[e].opId, e, regs.names[e].value)} else {})
    + (if e in regs.parents then {MoveOp(regs.parents[e].opId, e, regs.parents[e].value)} else {})
    + (if e in regs.deleted then {RemoveOp(regs.deleted[e].opId, e)} else {})
  }

  function OpsOfEntry(regs: Registers, e: EntryId): set<TreeOp> {
    if e in regs.creates then EntryOps(regs, e) else OrphanOps(regs, e)
  }

  function WrittenIn(regs: Registers): set<EntryId> {
    regs.creates.Keys + regs.names.Keys + regs.parents.Keys + regs.deleted.Keys
  }

  function CompactedFor(regs: Registers, es: set<EntryId>): set<TreeOp> {
    set e, op | e in es && op in OpsOfEntry(regs, e) :: op
  }

  function Compacted(regs: Registers): set<TreeOp> { CompactedFor(regs, WrittenIn(regs)) }

  method CompactEntryOperations(registers: Registers) returns (compacted: set<TreeOp>)
    ensures compacted == CompactedFor(registers, registers.creates.Keys)
  {
    hide OpsOfEntry, EntryOps;
    compacted := {};
    var rest := registers.creates.Keys;
    while rest != {}
      invariant rest <= registers.creates.Keys
      invariant compacted == CompactedFor(registers, registers.creates.Keys - rest)
      decreases rest
    {
      var e :| e in rest;
      OneMoreEntry(registers, registers.creates.Keys - rest, e);
      compacted := compacted + OpsOfEntry(registers, e);
      rest := rest - {e};
      assert registers.creates.Keys - rest == registers.creates.Keys - (rest + {e}) + {e};
    }
    assert registers.creates.Keys - rest == registers.creates.Keys;
  }

  lemma OneMoreEntry(regs: Registers, es: set<EntryId>, e: EntryId)
    ensures CompactedFor(regs, es + {e}) == CompactedFor(regs, es) + OpsOfEntry(regs, e)
  {
    hide OpsOfEntry;
  }

  // The operations of never created entries, one register after the other.
  function OrphansOf(regs: Registers): set<TreeOp> {
    (set e | e in regs.names && e !in regs.creates :: RenameOp(regs.names[e].opId, e, regs.names[e].value))
    + (set e | e in regs.parents && e !in regs.creates :: MoveOp(regs.parents[e].opId, e, regs.parents[e].value))
    + (set e | e in regs.deleted && e !in regs.creates :: RemoveOp(regs.deleted[e].opId, e))
  }

  lemma OrphansComplete(regs: Registers)
    ensures CompactedFor(regs, regs.creates.Keys) + OrphansOf(regs) == Compacted(regs)
  {
    hide EntryOps;
    forall op
      ensures op in CompactedFor(regs, WrittenIn(regs) - regs.creates.Keys) <==> op in OrphansOf(regs)
    {
      OrphanMember(regs, op);
    }
  }

  lemma OrphanMember(regs: Registers, op: TreeOp)
    ensures op in CompactedFor(regs, WrittenIn(regs) - regs.creates.Keys) <==> op in OrphansOf(regs)
  {
    var es := WrittenIn(regs) - regs.creates.Keys;
    if op in CompactedFor(regs, es) {
      var e :| e in es && op in OpsOfEntry(regs, e);
      assert op in OrphanOps(regs, e);
    }
    if op in OrphansOf(regs) {
      var e := EntryOf(op);
      assert e in es && op in OpsOfEntry(regs, e);
    }
  }

  // ----- The compacted operations are the surviving ones -----

  // A decisive operation that is not the create of its entry is the operation that compaction writes.
  lemma DecisiveKind(ops: set<TreeOp>, k: Kind, e: EntryId, w: TreeOp)
    requires UniqueIds(ops) && Wins(ops, k, e, w)
    ensures w.CreateOp? ==> Wins(ops, Creates, e, w)
    ensures e !in Written(ops, Creates) ==> !w.CreateOp?
    ensures e in Written(ops, Creates) ==>
              var c := Deciders(ops, Creates)[e];
              CompareCrdtIds(w.opId, c.opId) == 0 <==> w == c
  {
    if e in Written(ops, Creates) {
      var c := Deciders(ops, Creates)[e];
      assert Wins(ops, Creates, e, c);
      IdTrichotomy(w.opId, c.opId);
    }
  }

  lemma SurvivorIsCompacted(ops: set<TreeOp>, op: TreeOp, k: Kind)
    requires UniqueIds(ops) && Wins(ops, k, EntryOf(op), op)
    ensures op in OpsOfEntry(RegistersOf(ops), EntryOf(op)) && EntryOf(op) in WrittenIn(RegistersOf(ops))
  {
    hide Written, CompareCrdtIds;
    var e := EntryOf(op);
    var d := Deciders(ops, k);
    assert e in Written(ops, k) by { WinsWritten(ops, k, e, op); }
    WinsUnique(ops, k, e, d[e], op);
    DecisiveKind(ops, k, e, op);
    if op.CreateOp? {
      WinsWritten(ops, Creates, e, op);
      WinsUnique(ops, Creates, e, Deciders(ops, Creates)[e], op);
    } else if e in Written(ops, Creates) {
      assert Deciders(ops, Creates)[e].CreateOp?;
    }
  }

  lemma WinsWritten(ops: set<TreeOp>, k: Kind, e: EntryId, op: TreeOp)
    requires Wins(ops, k, e, op)
    ensures e in Written(ops, k)
  {
  }

  // A decisive operation other than the create of its entry is no create at all.
  lemma NotACreate(ops: set<TreeOp>, k: Kind, e: EntryId)
    requires UniqueIds(ops) && e in Written(ops, k)
    requires e in Written(ops, Creates) ==>
               CompareCrdtIds(Deciders(ops, k)[e].opId, Deciders(ops, Creates)[e].opId) != 0
    ensures !Deciders(ops, k)[e].CreateOp?
  {
    hide CompareCrdtIds;
    var w := Deciders(ops, k)[e];
    DecisiveKind(ops, k, e, w);
    if w.CreateOp? {
      WinsUnique(ops, Creates, e, Deciders(ops, Creates)[e], w);
    }
  }

  lemma DeciderSurvives(ops: set<TreeOp>, k: Kind, e: EntryId)
    requires e in Written(ops, k)
    ensures Deciders(ops, k)[e] in Survivors(ops) && EntryOf(Deciders(ops, k)[e]) == e && Writes(Deciders(ops, k)[e], k)
  {
    assert Wins(ops, k, e, Deciders(ops, k)[e]);
  }

  lemma CompactedSurvives(ops: set<TreeOp>, e: EntryId, op: TreeOp)
    requires UniqueIds(ops) && op in OpsOfEntry(RegistersOf(ops), e)
    ensures op in Survivors(ops)
  {
    hide Written, CompareCrdtIds, UniqueIds, Wins, Deciders, Survivors;
    var k := if op.CreateOp? then Creates else if op.RenameOp? then Names
             else if op.MoveOp? then Parents else Deletions;
    DeciderSurvives(ops, k, e);
    if !op.CreateOp? && !op.RemoveOp? {
      NotACreate(ops, k, e);
    }
  }

  lemma CompactedIsSurvivors(ops: set<TreeOp>)
    requires UniqueIds(ops)
    ensures Compacted(RegistersOf(ops)) == Survivors(ops)
  {
    hide OpsOfEntry, WrittenIn, RegistersOf;
    var regs := RegistersOf(ops);
    forall op | op in Survivors(ops)
      ensures op in Compacted(regs)
    {
      var k :| Wins(ops, k, EntryOf(op), op);
      SurvivorIsCompacted(ops, op, k);
    }
    forall op | op in Compacted(regs)
      ensures op in Survivors(ops)
    {
      var e :| e in WrittenIn(regs) && op in OpsOfEntry(regs, e);
      CompactedSurvives(ops, e, op);
    }
  }

  // ----- The object -----

  datatype TreeError = ConflictingOperationId | NameExists

  function Batch(incoming: seq<TreeOp>): set<TreeOp> { set op | op in incoming }

  lemma BatchNext(incoming: seq<TreeOp>, i: nat)
    requires i < |incoming|
    ensures Batch(incoming[..i + 1]) == Batch(incoming[..i]) + {incoming[i]}
    ensures incoming[i] in incoming && Batch(incoming[..i + 1]) <= Batch(incoming)
  {
    assert incoming[..i + 1] == incoming[..i] + [incoming[i]];
  }

  lemma BatchEnds(incoming: seq<TreeOp>)
    ensures Batch(incoming[..0]) == {} && Batch(incoming[..|incoming|]) == Batch(incoming)
  {
    assert incoming[..|incoming|] == incoming;
  }

  lemma ValuesWith(m: map<CrdtId, TreeOp>, op: TreeOp)
    requires op.opId !in m
    ensures m[op.opId := op].Values == m.Values + {op}
  {
    var m' := m[op.opId := op];
    forall o | o in m.Values + {op}
      ensures o in m'.Values
    {
      if o != op {
        var id :| id in m && m[id] == o;
        assert m'[id] == o;
      } else {
        assert m'[op.opId] == op;
      }
    }
  }

  lemma SameIdConflicts(ops: set<TreeOp>, a: TreeOp, b: TreeOp)
    requires a in ops && b in ops && a.opId == b.opId && a != b
    ensures !UniqueIds(ops)
  {
  }

  // One more operation, after the one already known under its id, if there is one.
  lemma StillUnique(ops: set<TreeOp>, operation: TreeOp, known: Option<TreeOp>)
    requires UniqueIds(ops)
    requires if known.Some? then known.value in ops && known.value == operation
             else forall op | op in ops :: op.opId != operation.opId
    ensures UniqueIds(ops + {operation})
  {
  }

  // A proper prefix first, else the smaller unit at the first difference.
  ghost predicate Precedes(a: JsString, b: JsString) { a < b || exists i :: SmallerAt(a, b, i) }

  predicate EntryLess(a: RoomEntry, b: RoomEntry) { StringLess(a.id, b.id) }

  predicate OpLess(a: TreeOp, b: TreeOp) { IdLess(a.opId, b.opId) }

  lemma AscendingIds(entries: seq<RoomEntry>)
    requires Ascending(entries, EntryLess)
    ensures forall i, j | 0 <= i < j < |entries| :: Precedes(entries[i].id, entries[j].id)
  {
    hide StringLess, Precedes;
    forall i, j | 0 <= i < j < |entries|
      ensures Precedes(entries[i].id, entries[j].id)
    {
      PrecedesIff(entries[i].id, entries[j].id);
    }
  }

  lemma PrecedesIff(a: JsString, b: JsString)
    ensures StringLess(a, b) <==> Precedes(a, b)
  {
    StringLessIff(a, b);
  }

  lemma AscendingOps(ops: seq<TreeOp>)
    requires Ascending(ops, OpLess)
    ensures forall i, j | 0 <= i < j < |ops| ::
              ops[i].opId.counter < ops[j].opId.counter
              || (ops[i].opId.counter == ops[j].opId.counter && Precedes(ops[i].opId.siteId, ops[j].opId.siteId))
  {
    hide StringLess, Precedes;
    forall i, j | 0 <= i < j < |ops|
      ensures ops[i].opId.counter < ops[j].opId.counter
              || (ops[i].opId.counter == ops[j].opId.counter && Precedes(ops[i].opId.siteId, ops[j].opId.siteId))
    {
      assert OpLess(ops[i], ops[j]);
      PrecedesIff(ops[i].opId.siteId, ops[j].opId.siteId);
    }
  }

  lemma EntriesOrdered(regs: Registers)
    requires RegistersOk(regs)
    ensures Orders(EntryLess, EntriesOf(regs).Values)
  {
    hide StringLess, RegistersOk, EntriesOf;
    EntriesFields(regs);
    var entries := EntriesOf(regs).Values;
    forall a, b | a in entries && b in entries
      ensures !EntryLess(a, a) && (a != b ==> EntryLess(a, b) || EntryLess(b, a))
    {
      StringLessTrichotomy(a.id, b.id);
    }
    forall a, b, c | a in entries && b in entries && c in entries && EntryLess(a, b) && EntryLess(b, c)
      ensures EntryLess(a, c)
    {
      StringLessTransitive(a.id, b.id, c.id);
    }
  }

  lemma SurvivorsOrdered(ops: set<TreeOp>)
    requires UniqueIds(ops)
    ensures Orders(OpLess, Survivors(ops))
  {
    hide CompareCrdtIds, IdLess;
    var some := Survivors(ops);
    forall a, b | a in some && b in some
      ensures !OpLess(a, a) && (a != b ==> OpLess(a, b) || OpLess(b, a))
    {
      IdTrichotomy(a.opId, b.opId);
      IdTrichotomy(a.opId, a.opId);
    }
    forall a, b, c | a in some && b in some && c in some && OpLess(a, b) && OpLess(b, c)
      ensures OpLess(a, c)
    {
      IdTransitive(a.opId, b.opId, c.opId);
    }
  }

  class ProjectTree {
    const siteId: JsString
    var clock: nat
    var operations: map<CrdtId, TreeOp>

    ghost predicate Valid()
      reads this
    {
      forall id | id in operations :: operations[id].opId == id && id.counter <= clock
    }

    ghost function Ops(): set<TreeOp>
      reads this
    {
      operations.Values
    }

    lemma OpsUnique()
      requires Valid()
      ensures UniqueIds(Ops())
      ensures forall op :: op in Ops() <==> op.opId in operations && operations[op.opId] == op
    {
    }

    constructor (siteId: JsString)
      ensures this.siteId == siteId && clock == 0 && operations == map[] && Valid() && Ops() == {}
    {
      this.siteId := siteId;
      clock := 0;
      operations := map[];
    }

    method ApplyOperation(operation: TreeOp) returns (result: Result<(), TreeError>)
      requires Valid()
      modifies this
      ensures Valid()
      ensures result.Ok? <==> UniqueIds(old(Ops()) + {operation})
      ensures result.Ok? ==> Ops() == old(Ops()) + {operation}
      ensures result.Ok? ==> clock == if old(clock) < operation.opId.counter then operation.opId.counter else old(clock)
      ensures result.Err? ==> clock == old(clock) && operations == old(operations)
    {
      hide UniqueIds;
      OpsUnique();
      var key := operation.opId;
      if key in operations {
        var current := operations[key];
        if current != operation {
          SameIdConflicts(Ops() + {operation}, current, operation);
          return Err(ConflictingOperationId);
        }
        assert Ops() + {operation} == Ops();
        return Ok(());
      }
      StillUnique(Ops(), operation, None);
      ValuesWith(operations, operation);
      operations := operations[key := operation];
      if clock < operation.opId.counter {
        clock := operation.opId.counter;
      }
      return Ok(());
    }

    // Every local operation carries an id that no operation of the tree has, above all of them.
    method Issue(operation: TreeOp)
      requires Valid() && operation.opId == CrdtId(siteId, clock + 1)
      modifies this
      ensures Valid() && clock == old(clock) + 1
      ensures forall op | op in old(Ops()) :: op.opId.counter < operation.opId.counter
      ensures Ops() == old(Ops()) + {operation}
    {
      OpsUnique();
      assert forall op | op in Ops() :: op.opId != operation.opId;
      var applied := ApplyOperation(operation);
    }

    // createEntry: refused exactly if a shown sibling has the name up to case.
    method CreateEntry(entry: RoomEntry, toLowerCase: JsString -> JsString) returns (result: Result<TreeOp, TreeError>)
      requires Valid()
      modifies this
      ensures var clash := exists other :: other in EntriesOf(RegistersOf(old(Ops()))).Values
                                           && other.parentId == entry.parentId
                                           && toLowerCase(other.name) == toLowerCase(entry.name);
              result == if clash then Err(NameExists) else Ok(CreateOp(CrdtId(siteId, old(clock) + 1), entry))
      ensures Valid()
      ensures if result.Ok? then clock == old(clock) + 1 && Ops() == old(Ops()) + {result.value}
              else clock == old(clock) && operations == old(operations)
    {
      hide RegistersOf, EntriesOf, IsForestOfFolders;
      var entries := GetEntries();
      assert forall other :: other in entries <==> other in Elements(entries);
      if exists other | other in entries ::
        other.parentId == entry.parentId && toLowerCase(other.name) == toLowerCase(entry.name) {
        return Err(NameExists);
      }
      var operation := CreateOp(CrdtId(siteId, clock + 1), entry);
      Issue(operation);
      return Ok(operation);
    }

    method RenameEntry(entryId: EntryId, name: JsString) returns (operation: TreeOp)
      requires Valid()
      modifies this
      ensures operation == RenameOp(CrdtId(siteId, old(clock) + 1), entryId, name)
      ensures Valid() && clock == old(clock) + 1 && Ops() == old(Ops()) + {operation}
    {
      operation := RenameOp(CrdtId(siteId, clock + 1), entryId, name);
      Issue(operation);
    }

    method MoveEntry(entryId: EntryId, parentId: Option<EntryId>) returns (operation: TreeOp)
      requires Valid()
      modifies this
      ensures operation == MoveOp(CrdtId(siteId, old(clock) + 1), entryId, parentId)
      ensures Valid() && clock == old(clock) + 1 && Ops() == old(Ops()) + {operation}
    {
      operation := MoveOp(CrdtId(siteId, clock + 1), entryId, parentId);
      Issue(operation);
    }

    method DeleteEntry(entryId: EntryId) returns (operation: TreeOp)
      requires Valid()
      modifies this
      ensures operation == RemoveOp(CrdtId(siteId, old(clock) + 1), entryId)
      ensures Valid() && clock == old(clock) + 1 && Ops() == old(Ops()) + {operation}
    {
      operation := RemoveOp(CrdtId(siteId, clock + 1), entryId);
      Issue(operation);
    }

    // The entries, by ascending id, depend on the set of operations alone.
    method GetEntries() returns (entries: seq<RoomEntry>)
      requires Valid()
      ensures Elements(entries) == EntriesOf(RegistersOf(Ops())).Values && Ascending(entries, EntryLess)
      ensures forall i, j | 0 <= i < j < |entries| :: Precedes(entries[i].id, entries[j].id)
      ensures IsForestOfFolders(RegistersOf(Ops()), EntriesOf(RegistersOf(Ops())))
    {
      hide RegistersOf, EntriesOf, RegistersOk, IsForestOfFolders, Elements, Ascending, Orders;
      OpsUnique();
      var registers := BuildRegisters(operations.Values);
      RegistersOfOk(Ops());
      var visible := MaterializeEntries(registers);
      EntriesFormForest(registers);
      EntriesOrdered(registers);
      entries := SortSet(visible.Values, EntryLess);
      AscendingIds(entries);
    }

    // A snapshot keeps exactly the operations that decide some register, by ascending id.
    method ToSnapshot() returns (snapshot: seq<TreeOp>)
      requires Valid()
      ensures Batch(snapshot) == Survivors(Ops()) && Ascending(snapshot, OpLess)
      ensures forall i, j | 0 <= i < j < |snapshot| ::
                snapshot[i].opId.counter < snapshot[j].opId.counter
                || (snapshot[i].opId.counter == snapshot[j].opId.counter
                    && Precedes(snapshot[i].opId.siteId, snapshot[j].opId.siteId))
    {
      hide RegistersOf, Survivors, Compacted, CompactedFor, OrphansOf, Ascending, Orders;
      OpsUnique();
      var registers := BuildRegisters(operations.Values);
      var compacted := CompactEntryOperations(registers);
      OrphansComplete(registers);
      CompactedIsSurvivors(Ops());
      compacted := compacted + OrphansOf(registers);
      SurvivorsOrdered(Ops());
      snapshot := SortSet(compacted, OpLess);
      AscendingOps(snapshot);
      assert Batch(snapshot) == Elements(snapshot);
    }

    // validateOperationBatch: each operation against the batch so far, else against the tree.
    method ValidateOperationBatch(incoming: seq<TreeOp>) returns (valid: bool)
      requires Valid()
      ensures valid <==> UniqueIds(Ops() + Batch(incoming))
    {
      hide UniqueIds, Batch;
      OpsUnique();
      var seen: map<CrdtId, TreeOp> := map[];
      BatchEnds(incoming);
      assert Ops() + Batch(incoming[..0]) == Ops();
      for i := 0 to |incoming|
        invariant UniqueIds(Ops() + Batch(incoming[..i]))
        invariant forall op | op in Batch(incoming[..i]) :: op.opId in seen
        invariant forall id | id in seen :: seen[id].opId == id && seen[id] in Batch(incoming[..i])
        invariant forall op | op in Batch(incoming[..i]) :: seen[op.opId] == op
      {
        var operation := incoming[i];
        var key := operation.opId;
        BatchNext(incoming, i);
        var known := if key in seen then Some(seen[key]) else if key in operations then Some(operations[key]) else None;
        if known.Some? && known.value != operation {
          SameIdConflicts(Ops() + Batch(incoming), known.value, operation);
          return false;
        }
        StillUnique(Ops() + Batch(incoming[..i]), operation, known);
        assert Ops() + Batch(incoming[..i + 1]) == Ops() + Batch(incoming[..i]) + {operation};
        seen := seen[key := operation];
      }
      return true;
    }

    // A snapshot is merged as a whole or not at all.
    method FromSnapshot(incoming: seq<TreeOp>) returns (result: Result<(), TreeError>)
      requires Valid()
      modifies this
      ensures Valid()
      ensures result.Ok? <==> UniqueIds(old(Ops()) + Batch(incoming))
      ensures result.Ok? ==> Ops() == old(Ops()) + Batch(incoming) && clock >= old(clock)
      ensures result.Ok? ==> clock == old(clock) || exists op :: op in incoming && clock == op.opId.counter
      ensures result.Err? ==> clock == old(clock) && operations == old(operations)
    {
      hide Batch, UniqueIds, Valid;
      var valid := ValidateOperationBatch(incoming);
      if !valid {
        return Err(ConflictingOperationId);
      }
      BatchEnds(incoming);
      for i := 0 to |incoming|
        invariant Valid() && clock >= old(clock)
        invariant Ops() == old(Ops()) + Batch(incoming[..i])
        invariant clock == old(clock) || exists op :: op in incoming && clock == op.opId.counter
      {
        BatchNext(incoming, i);
        UniqueSubset(Ops() + {incoming[i]}, old(Ops()) + Batch(incoming));
        var applied := ApplyOperation(incoming[i]);
        assert incoming[i] in incoming;
      }
      BatchEnds(incoming);
      return Ok(());
    }
  }

  // A tree gives one list of entries and one snapshot.
  lemma OneListing(ops: set<TreeOp>, entries: seq<RoomEntry>, entries': seq<RoomEntry>, snapshot: seq<TreeOp>,
                   snapshot': seq<TreeOp>)
    requires UniqueIds(ops)
    requires Elements(entries) == Elements(entries') == EntriesOf(RegistersOf(ops)).Values
    requires Elements(snapshot) == Elements(snapshot') == Survivors(ops)
    requires Ascending(entries, EntryLess) && Ascending(entries', EntryLess)
    requires Ascending(snapshot, OpLess) && Ascending(snapshot', OpLess)
    ensures entries == entries' && snapshot == snapshot'
  {
    hide RegistersOf, EntriesOf, Survivors, Orders, Ascending, Elements, RegistersOk;
    RegistersOfOk(ops);
    EntriesOrdered(RegistersOf(ops));
    SurvivorsOrdered(ops);
    AscendingUnique(entries, entries', EntryLess, EntriesOf(RegistersOf(ops)).Values);
    AscendingUnique(snapshot, snapshot', OpLess, Survivors(ops));
  }

  // An operation above all others decides every register it writes, and no other: a local rename
  // names the entry, a local move places it, and a local delete hides it.
  lemma LocalOperationDecides(ops: set<TreeOp>, op: TreeOp)
    requires UniqueIds(ops) && forall o | o in ops :: o.opId.counter < op.opId.counter
    ensures UniqueIds(ops + {op})
    ensures var before, after := RegistersOf(ops), RegistersOf(ops + {op});
            match op
            case CreateOp(opId, entry) =>
              after == Registers(before.creates[entry.id := Register(opId, entry)],
                                 before.names[entry.id := Register(opId, entry.name)],
                                 before.parents[entry.id := Register(opId, entry.parentId)], before.deleted)
            case RenameOp(opId, e, name) => after == before.(names := before.names[e := Register(opId, name)])
            case MoveOp(opId, e, parentId) => after == before.(parents := before.parents[e := Register(opId, parentId)])
            case RemoveOp(opId, e) =>
              after == before.(deleted := before.deleted[e := Register(opId, true)]) && !Shown(after, e)
  {
    hide Shown, RegistersOf;
    RegistersAfter(ops, op);
    RegistersBelow(ops, op.opId);
    if op.RemoveOp? {
      DeletedIsHidden(RegistersOf(ops + {op}), op.entryId);
    }
  }

  // No register of older operations carries a greater id.
  lemma RegistersBelow(ops: set<TreeOp>, id: CrdtId)
    requires forall o | o in ops :: o.opId.counter < id.counter
    ensures var regs := RegistersOf(ops);
            && (forall e | e in regs.creates :: CompareCrdtIds(id, regs.creates[e].opId) > 0)
            && (forall e | e in regs.names :: CompareCrdtIds(id, regs.names[e].opId) > 0)
            && (forall e | e in regs.parents :: CompareCrdtIds(id, regs.parents[e].opId) > 0)
            && (forall e | e in regs.deleted :: CompareCrdtIds(id, regs.deleted[e].opId) > 0)
  {
    hide Written;
  }

  // A tree that holds what compaction kept has a clock above everything compaction dropped, so its
  // next id is none of theirs.
  lemma CompactionKeepsClock(a: set<TreeOp>, clock: nat)
    requires forall op | op in Survivors(a) :: op.opId.counter <= clock
    ensures forall op | op in a :: op.opId.counter <= clock
  {
    if a != {} {
      GreatestSurvives(a);
    }
  }

  // What a peer shows does not depend on whether it loaded the compacted snapshot or every operation.
  lemma CompactionKeepsEntries(a: set<TreeOp>, b: set<TreeOp>)
    requires UniqueIds(a + b)
    ensures EntriesOf(RegistersOf(Survivors(a) + b)) == EntriesOf(RegistersOf(a + b))
  {
    hide Survivors, EntriesOf, RegistersOf;
    CompactionPreservesMeaning(a, b);
  }
}
